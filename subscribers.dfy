/** The confirmation subscriber registry of websocket.go: numbered handlers kept in
    subscription order. The mutex that serialises the operations is not modelled: each
    operation runs as one step. */
module Subscribers {
  import opened Common

  /** One subscription: its key and the handler that confirmations are handed to. */
  datatype Sub<H> = Sub(key: int, handler: H)

  /** The keys of a subscription list, in list order. */
  function Keys<H>(subs: seq<Sub<H>>): (ks: seq<int>)
    ensures |ks| == |subs| && forall i :: 0 <= i < |subs| ==> ks[i] == subs[i].key
  {
    if subs == [] then [] else Keys(subs[..|subs| - 1]) + [subs[|subs| - 1].key]
  }

  /** The list without its first entry carrying `key`; the same list when there is none. */
  function RemoveFirst<H>(subs: seq<Sub<H>>, key: int): seq<Sub<H>>
  {
    if subs == [] then []
    else if subs[0].key == key then subs[1..]
    else [subs[0]] + RemoveFirst(subs[1..], key)
  }

  /** Where the first entry with `key` sits, or |subs| when there is none. */
  function FirstWith<H>(subs: seq<Sub<H>>, key: int): (i: nat)
    ensures i <= |subs|
    ensures i < |subs| ==> subs[i].key == key
    ensures forall j :: 0 <= j < i ==> subs[j].key != key
  {
    if subs == [] then 0 else if subs[0].key == key then 0 else 1 + FirstWith(subs[1..], key)
  }

  /** Removing the first entry with a key is splicing the list at that entry: every other entry
      stays, in its order; a key that is not there changes nothing. */
  lemma {:induction false} RemoveFirstSplices<H>(subs: seq<Sub<H>>, key: int)
    ensures var i := FirstWith(subs, key);
      RemoveFirst(subs, key) == if i < |subs| then subs[..i] + subs[i + 1..] else subs
  {
    if subs != [] && subs[0].key != key {
      RemoveFirstSplices(subs[1..], key);
      var i := FirstWith(subs[1..], key);
      if i < |subs[1..]| {
        assert [subs[0]] + (subs[1..][..i] + subs[1..][i + 1..]) == subs[..i + 1] + subs[i + 2..];
      } else {
        assert [subs[0]] + subs[1..] == subs;
      }
    }
  }

  /** Keys strictly increase along the list. */
  predicate Increasing<H>(subs: seq<Sub<H>>) {
    forall i, j :: 0 <= i < j < |subs| ==> subs[i].key < subs[j].key
  }

  /** Splicing one entry out of a list with increasing keys keeps the keys increasing. */
  lemma SpliceKeepsIncreasing<H>(subs: seq<Sub<H>>, i: int)
    requires Increasing(subs) && 0 <= i < |subs|
    ensures Increasing(subs[..i] + subs[i + 1..])
  {
    var r := subs[..i] + subs[i + 1..];
    assert forall j :: 0 <= j < |r| ==> r[j] == subs[if j < i then j else j + 1];
  }

  /** Splicing out the entry at `i` of a list with increasing keys leaves no entry with its key. */
  lemma SpliceDropsKey<H>(subs: seq<Sub<H>>, i: int)
    requires Increasing(subs) && 0 <= i < |subs|
    ensures forall s :: s in subs[..i] + subs[i + 1..] ==> s.key != subs[i].key
  {
    var r := subs[..i] + subs[i + 1..];
    forall s | s in r
      ensures s.key != subs[i].key
    {
      var j :| 0 <= j < |r| && r[j] == s;
      assert r[j] == subs[if j < i then j else j + 1];
    }
  }

  /** With increasing keys, unsubscribing a key leaves no entry with it, the remaining keys still
      increase, and the list shrinks by one exactly when the key was subscribed. */
  lemma UnsubscribeRemovesKey<H>(subs: seq<Sub<H>>, key: int)
    requires Increasing(subs)
    ensures Increasing(RemoveFirst(subs, key))
    ensures forall s :: s in RemoveFirst(subs, key) ==> s.key != key
    ensures |RemoveFirst(subs, key)| == if key in Keys(subs) then |subs| - 1 else |subs|
  {
    RemoveFirstSplices(subs, key);
    var i := FirstWith(subs, key);
    if i < |subs| {
      SpliceKeepsIncreasing(subs, i);
      SpliceDropsKey(subs, i);
      assert Keys(subs)[i] == key;
    } else {
      forall j | 0 <= j < |subs|
        ensures Keys(subs)[j] != key
      {
      }
    }
  }

  /** Removing an entry keeps every remaining key below a bound that all keys were below. */
  lemma {:induction false} RemoveFirstKeepsBound<H>(subs: seq<Sub<H>>, key: int, bound: int)
    requires forall i :: 0 <= i < |subs| ==> subs[i].key < bound
    ensures forall i :: 0 <= i < |RemoveFirst(subs, key)| ==> RemoveFirst(subs, key)[i].key < bound
  {
    if subs != [] {
      if subs[0].key == key {
        assert forall i :: 0 <= i < |subs| - 1 ==> subs[1..][i] == subs[i + 1];
      } else {
        RemoveFirstKeepsBound(subs[1..], key, bound);
        var rest := RemoveFirst(subs[1..], key);
        var r := [subs[0]] + rest;
        assert RemoveFirst(subs, key) == r;
        forall i | 0 <= i < |r|
          ensures r[i].key < bound
        {
          if i > 0 {
            assert r[i] == rest[i - 1];
          }
        }
      }
    }
  }

  /** wsClientType: the next key to hand out and the subscriptions in the order they were made. */
  class WsClient<H> {
    var nextKey: int
    var subs: seq<Sub<H>>

    /** Every key handed out is below the next one, and keys increase along the list. */
    predicate Valid()
      reads this
    {
      Increasing(subs) && forall i :: 0 <= i < |subs| ==> subs[i].key < nextKey
    }

    constructor ()
      ensures Valid() && nextKey == 0 && subs == []
    {
      nextKey := 0;
      subs := [];
    }

    /** subscribe: hand out the current counter, advance it, and append the handler. */
    method Subscribe(f: H) returns (key: int)
      requires Valid()
      modifies this
      ensures Valid()
      ensures key == old(nextKey) && nextKey == old(nextKey) + 1
      ensures subs == old(subs) + [Sub(key, f)]
      ensures forall s :: s in old(subs) ==> s.key < key
    {
      key := nextKey;
      nextKey := nextKey + 1;
      subs := subs + [Sub(key, f)];
    }

    /** unsubscribe: scan from the front and splice out the first entry with the key. */
    method Unsubscribe(key: int)
      requires Valid()
      modifies this
      ensures Valid() && nextKey == old(nextKey)
      ensures subs == RemoveFirst(old(subs), key)
    {
      var list := subs;
      RemoveFirstSplices(list, key);
      UnsubscribeRemovesKey(list, key);
      var i := 0;
      while i < |list| && list[i].key != key
        invariant 0 <= i <= |list|
        invariant forall j :: 0 <= j < i ==> list[j].key != key
      {
        i := i + 1;
      }
      assert i == FirstWith(list, key);
      if i < |list| {
        subs := list[..i] + list[i + 1..];
      }
      RemoveFirstKeepsBound(list, key, nextKey);
    }

    /** The fan-out of a confirmation: every subscriber's handler is called once with the block,
        in list order. Returns the calls made, in order. */
    method Deliver(block: Block) returns (calls: seq<(H, Block)>)
      ensures |calls| == |subs|
      ensures forall i :: 0 <= i < |subs| ==> calls[i] == (subs[i].handler, block)
    {
      calls := [];
      for i := 0 to |subs|
        invariant |calls| == i
        invariant forall j :: 0 <= j < i ==> calls[j] == (subs[j].handler, block)
      {
        calls := calls + [(subs[i].handler, block)];
      }
    }
  }

  /** Keys handed out by a registry are unique among its subscriptions. */
  lemma KeysUnique<H>(c: WsClient<H>, i: int, j: int)
    requires c.Valid() && 0 <= i < |c.subs| && 0 <= j < |c.subs| && i != j
    ensures c.subs[i].key != c.subs[j].key
  {
  }
}
