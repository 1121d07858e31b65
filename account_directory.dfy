/** The per-wallet account directory of wallet_info.go: a map from address to account record
    and a second view of the same records, `accountsList`, kept sorted by derivation index.
    Account records are shared objects: the map and the list point at the same record, and a
    balance written through one is seen through the other. */
module AccountDirectory {
  import opened Common

  /** The balance and the pending (receivable) amount of one account, in raw units, as one
      balance query reports them. */
  datatype AccountBalance = AccountBalance(balance: nat, pending: nat)

  /** One derivation result of the HD wallet: an address and the index it was derived at. */
  datatype Derived = Derived(address: Address, index: nat)

  /** The routine that unlocks a wallet: a hardware device, a BIP39 mnemonic or a raw seed. */
  datatype UnlockPath = Ledger | Bip39 | Seed

  /** accountInfo: the address and derivation index never change once the record exists; the
      balance and pending amount are unknown (nil) until a balance query has answered. */
  class AccountInfo {
    const address: Address
    const index: nat
    var balance: Option<nat>
    var pending: Option<nat>

    constructor (address: Address, index: nat)
      ensures this.address == address && this.index == index
      ensures balance == None && pending == None
    {
      this.address := address;
      this.index := index;
      balance := None;
      pending := None;
    }
  }

  // ---------------------------------------------------------------------------------------
  // The sorted list and its lower-bound search, as functions of the list value.

  predicate SortedByIndex(l: seq<AccountInfo>) {
    forall i, j :: 0 <= i < j < |l| ==> l[i].index <= l[j].index
  }

  /** No two records share a derivation index: the HD wallet derives one address per index. */
  predicate DistinctIndices(l: seq<AccountInfo>) {
    forall i, j :: 0 <= i < j < |l| ==> l[i].index != l[j].index
  }

  /** The least position whose index is at least idx, or |l| when there is none. */
  function LowerBound(l: seq<AccountInfo>, idx: nat): (p: nat)
    ensures p <= |l|
    ensures forall j :: 0 <= j < p ==> l[j].index < idx
    ensures p < |l| ==> l[p].index >= idx
  {
    if l == [] || l[0].index >= idx then 0 else 1 + LowerBound(l[1..], idx)
  }

  /** On a sorted list the lower bound splits it: everything before it is below idx and
      everything from it on is at least idx. */
  lemma LowerBoundSplits(l: seq<AccountInfo>, idx: nat)
    requires SortedByIndex(l)
    ensures forall j :: LowerBound(l, idx) <= j < |l| ==> l[j].index >= idx
  {
    var p := LowerBound(l, idx);
    forall j | p <= j < |l|
      ensures l[j].index >= idx
    {
      assert p < |l|;
      assert l[p].index <= l[j].index;
    }
  }

  /** A position that splits the list at idx is the lower bound. */
  lemma LowerBoundUnique(l: seq<AccountInfo>, idx: nat, p: nat)
    requires p <= |l|
    requires forall j :: 0 <= j < p ==> l[j].index < idx
    requires p < |l| ==> l[p].index >= idx
    ensures p == LowerBound(l, idx)
  {
  }

  function Insert(l: seq<AccountInfo>, p: nat, x: AccountInfo): seq<AccountInfo>
    requires p <= |l|
  {
    l[..p] + [x] + l[p..]
  }

  function RemoveAt(l: seq<AccountInfo>, p: nat): seq<AccountInfo>
    requires p < |l|
  {
    l[..p] + l[p + 1..]
  }

  /** Inserting at the lower bound keeps the list sorted, one element longer. */
  lemma InsertKeepsSorted(l: seq<AccountInfo>, x: AccountInfo)
    requires SortedByIndex(l)
    ensures var r := Insert(l, LowerBound(l, x.index), x);
      SortedByIndex(r) && |r| == |l| + 1
  {
    var p := LowerBound(l, x.index);
    var r := Insert(l, p, x);
    LowerBoundSplits(l, x.index);
    forall i, j | 0 <= i < j < |r|
      ensures r[i].index <= r[j].index
    {
      if j < p {
        assert r[i] == l[i] && r[j] == l[j];
      } else if j == p {
        assert r[i] == l[i];
      } else if i == p {
        assert r[j] == l[j - 1];
      } else if i < p {
        assert r[i] == l[i] && r[j] == l[j - 1];
      } else {
        assert r[i] == l[i - 1] && r[j] == l[j - 1];
      }
    }
  }

  /** Inserting at the lower bound keeps the list sorted; the new list is the old one with x
      added, and nothing else. */
  lemma InsertAtLowerBound(l: seq<AccountInfo>, x: AccountInfo)
    requires SortedByIndex(l)
    ensures var r := Insert(l, LowerBound(l, x.index), x);
      && SortedByIndex(r)
      && |r| == |l| + 1
      && multiset(r) == multiset(l) + multiset{x}
  {
    InsertKeepsSorted(l, x);
    InsertAdds(l, LowerBound(l, x.index), x);
  }

  /** Inserting anywhere adds exactly the inserted element. */
  lemma InsertAdds(l: seq<AccountInfo>, p: nat, x: AccountInfo)
    requires p <= |l|
    ensures multiset(Insert(l, p, x)) == multiset(l) + multiset{x}
  {
    var a, b := l[..p], l[p..];
    assert l == a + b;
    assert multiset(a + [x] + b) == multiset(a) + multiset{x} + multiset(b);
  }

  /** Where each element of a list with one element removed came from. */
  lemma RemoveAtIndex(l: seq<AccountInfo>, p: nat)
    requires p < |l|
    ensures |RemoveAt(l, p)| == |l| - 1
    ensures forall i :: 0 <= i < p ==> RemoveAt(l, p)[i] == l[i]
    ensures forall i :: p <= i < |l| - 1 ==> RemoveAt(l, p)[i] == l[i + 1]
  {
    var r := RemoveAt(l, p);
    forall i | p <= i < |l| - 1
      ensures r[i] == l[i + 1]
    {
      assert r[i] == l[p + 1..][i - p];
    }
  }

  /** Removing one element keeps the order of the others, so the list stays sorted and keeps
      its distinct indices. */
  lemma RemoveKeepsOrder(l: seq<AccountInfo>, p: nat)
    requires p < |l|
    ensures SortedByIndex(l) ==> SortedByIndex(RemoveAt(l, p))
    ensures DistinctIndices(l) ==> DistinctIndices(RemoveAt(l, p))
    ensures multiset(RemoveAt(l, p)) == multiset(l) - multiset{l[p]}
  {
    var r := RemoveAt(l, p);
    RemoveAtIndex(l, p);
    if SortedByIndex(l) {
      forall i, j | 0 <= i < j < |r|
        ensures r[i].index <= r[j].index
      {
        var i', j' := if i < p then i else i + 1, if j < p then j else j + 1;
        assert r[i] == l[i'] && r[j] == l[j'];
      }
    }
    if DistinctIndices(l) {
      forall i, j | 0 <= i < j < |r|
        ensures r[i].index != r[j].index
      {
        var i', j' := if i < p then i else i + 1, if j < p then j else j + 1;
        assert r[i] == l[i'] && r[j] == l[j'];
      }
    }
    assert l == l[..p] + [l[p]] + l[p + 1..];
  }

  // ---------------------------------------------------------------------------------------
  // How the list mirrors the map.

  /** Every key names the record stored under it. */
  predicate KeysMatch(accounts: map<Address, AccountInfo>) {
    forall a :: a in accounts ==> accounts[a].address == a
  }

  /** The list holds exactly the records of the map, each once. */
  predicate Mirrors(list: seq<AccountInfo>, accounts: map<Address, AccountInfo>) {
    && |list| == |accounts|
    && (forall i :: 0 <= i < |list| ==> list[i].address in accounts && accounts[list[i].address] == list[i])
    && (forall a :: a in accounts ==> Listed(list, accounts[a]))
    && (forall i, j :: 0 <= i < j < |list| ==> list[i] != list[j])
  }

  /** `r` is one of the records of the list. Written as a recursion so that the solver only
      unfolds it where a proof asks for it; ListedIff ties it to sequence membership. */
  predicate Listed(list: seq<AccountInfo>, r: AccountInfo) {
    list != [] && (list[0] == r || Listed(list[1..], r))
  }

  lemma {:induction false} ListedIff(list: seq<AccountInfo>, r: AccountInfo)
    ensures Listed(list, r) <==> r in list
  {
    if list != [] {
      ListedIff(list[1..], r);
      assert list == [list[0]] + list[1..];
    }
  }

  /** The addresses of the list, in list order: what the batched balance query asks for. */
  function Addresses(l: seq<AccountInfo>): (r: seq<Address>)
    ensures |r| == |l| && forall i :: 0 <= i < |l| ==> r[i] == l[i].address
  {
    if l == [] then [] else Addresses(l[..|l| - 1]) + [l[|l| - 1].address]
  }

  /** The balances a batched query reports, written over the known ones: a reported address
      gets the reported pair, every other account keeps what it had. With nothing reported,
      no balance changes. */
  twostate predicate Refreshed(accounts: map<Address, AccountInfo>, reported: map<Address, AccountBalance>)
    reads accounts.Values
  {
    forall a :: a in accounts ==>
      if a in reported then
        accounts[a].balance == Some(reported[a].balance) && accounts[a].pending == Some(reported[a].pending)
      else
        accounts[a].balance == old(accounts[a].balance) && accounts[a].pending == old(accounts[a].pending)
  }

  /** The write-back loop of getBalances: each reported address's record takes the reported
      balance and pending amount; no other record changes. */
  method WriteBalances(accounts: map<Address, AccountInfo>, reported: map<Address, AccountBalance>)
    requires KeysMatch(accounts) && reported.Keys <= accounts.Keys
    modifies accounts.Values
    ensures Refreshed(accounts, reported)
  {
    var todo := reported.Keys;
    while todo != {}
      invariant todo <= reported.Keys
      invariant forall a :: a in accounts ==>
        accounts[a].balance == (if a in reported && a !in todo then Some(reported[a].balance) else old(accounts[a].balance))
      invariant forall a :: a in accounts ==>
        accounts[a].pending == (if a in reported && a !in todo then Some(reported[a].pending) else old(accounts[a].pending))
      decreases |todo|
    {
      var a :| a in todo;
      var ai := accounts[a];
      assert ai in accounts.Values;
      assert forall b :: b in accounts && b != a ==> accounts[b] != ai;
      ai.balance, ai.pending := Some(reported[a].balance), Some(reported[a].pending);
      todo := todo - {a};
    }
  }

  /** The routine init picks for a wallet that is not yet unlocked. */
  function PathFor(isLedger: bool, isBip39: bool): (p: UnlockPath)
    ensures p == Ledger <==> isLedger
    ensures p == Bip39 <==> !isLedger && isBip39
  {
    if isLedger then Ledger else if isBip39 then Bip39 else Seed
  }

  /** A derivation result that ends addAccount's loop: an error, or an address not yet known. */
  predicate Stops(d: Result<Derived>, accounts: map<Address, AccountInfo>) {
    d.Err? || d.value.address !in accounts
  }

  /** The index map of the wallet: what its configuration records for each account. */
  function IndexMap(accounts: map<Address, AccountInfo>): (r: map<Address, nat>)
    ensures r.Keys == accounts.Keys
    ensures forall a :: a in accounts ==> r[a] == accounts[a].index
  {
    map a | a in accounts :: accounts[a].index
  }

  /** The addresses a scan reported. */
  function ScannedAddresses(scanned: seq<Derived>): set<Address> {
    set d | d in scanned :: d.address
  }

  /** One more scan result: its address is recorded with its index over what came before. */
  lemma MergedStep(m: map<Address, nat>, scanned: seq<Derived>, k: nat)
    requires k < |scanned|
    ensures Merged(m, scanned[..k + 1]) == Merged(m, scanned[..k])[scanned[k].address := scanned[k].index]
    ensures ScannedAddresses(scanned[..k + 1]) == ScannedAddresses(scanned[..k]) + {scanned[k].address}
  {
    assert scanned[..k + 1][..k] == scanned[..k];
    assert scanned[..k + 1] == scanned[..k] + [scanned[k]];
  }

  /** The index map after recording a scan: each scanned account overwrites its entry, later
      scan results over earlier ones. */
  function Merged(m: map<Address, nat>, scanned: seq<Derived>): (r: map<Address, nat>)
    ensures r.Keys == m.Keys + ScannedAddresses(scanned)
  {
    if scanned == [] then m
    else
      var last := scanned[|scanned| - 1];
      var r := Merged(m, scanned[..|scanned| - 1])[last.address := last.index];
      assert forall d :: d in scanned <==> d in scanned[..|scanned| - 1] || d == last;
      r
  }

  /** addAccount's derivation loop: the position of the first result that ends it. */
  method FirstStop(derived: seq<Result<Derived>>, accounts: map<Address, AccountInfo>) returns (k: nat)
    requires exists k :: 0 <= k < |derived| && Stops(derived[k], accounts)
    ensures k < |derived| && Stops(derived[k], accounts)
    ensures forall j :: 0 <= j < k ==> !Stops(derived[j], accounts)
  {
    ghost var stop :| 0 <= stop < |derived| && Stops(derived[stop], accounts);
    k := 0;
    while !Stops(derived[k], accounts)
      invariant 0 <= k <= stop
      invariant forall j :: 0 <= j < k ==> !Stops(derived[j], accounts)
      decreases stop - k
    {
      k := k + 1;
    }
  }

  lemma IndexMapStep(m: map<Address, AccountInfo>, ai: AccountInfo)
    ensures IndexMap(m[ai.address := ai]) == IndexMap(m)[ai.address := ai.index]
  {
  }

  /** initAccounts' loop: a new record for every scanned account, stored under its address
      over whatever was there. */
  method RecordScan(accounts: map<Address, AccountInfo>, scanned: seq<Derived>) returns (m: map<Address, AccountInfo>)
    requires KeysMatch(accounts)
    ensures KeysMatch(m)
    ensures IndexMap(m) == Merged(IndexMap(accounts), scanned)
    ensures forall a :: a in m ==>
      if a in ScannedAddresses(scanned) then fresh(m[a]) && m[a].balance == None && m[a].pending == None
      else a in accounts && m[a] == accounts[a]
  {
    m := accounts;
    var k := 0;
    while k < |scanned|
      invariant 0 <= k <= |scanned|
      invariant KeysMatch(m)
      invariant IndexMap(m) == Merged(IndexMap(accounts), scanned[..k])
      invariant forall a :: a in m ==>
        if a in ScannedAddresses(scanned[..k]) then fresh(m[a]) && m[a].balance == None && m[a].pending == None
        else a in accounts && m[a] == accounts[a]
    {
      var d := scanned[k];
      MergedStep(IndexMap(accounts), scanned, k);
      var ai := new AccountInfo(d.address, d.index);
      IndexMapStep(m, ai);
      m := m[d.address := ai];
      k := k + 1;
    }
    assert scanned[..k] == scanned;
  }

  /** Binary search for the lower bound, as sort.Search does it: the probe is the midpoint, and
      the window keeps "below idx" on its left and "at least idx" on its right. */
  method SearchIndex(l: seq<AccountInfo>, idx: nat) returns (p: nat)
    requires SortedByIndex(l)
    ensures p == LowerBound(l, idx)
  {
    var lo, hi := 0, |l|;
    LowerBoundSplits(l, idx);
    while lo < hi
      invariant 0 <= lo <= hi <= |l|
      invariant forall j :: 0 <= j < lo ==> l[j].index < idx
      invariant forall j :: hi <= j < |l| ==> l[j].index >= idx
    {
      var h := (lo + hi) / 2;
      if l[h].index < idx {
        lo := h + 1;
      } else {
        hi := h;
      }
    }
    LowerBoundUnique(l, idx, lo);
    p := lo;
  }

  /** Loop invariant of SortedRecords: `list` holds, sorted and each once, exactly the records
      whose addresses are no longer in `rest`. */
  predicate Collected(list: seq<AccountInfo>, accounts: map<Address, AccountInfo>, rest: set<Address>) {
    && rest <= accounts.Keys
    && |list| + |rest| == |accounts|
    && (forall i :: 0 <= i < |list| ==>
          list[i].address in accounts && list[i].address !in rest && accounts[list[i].address] == list[i])
    && (forall a :: a in accounts && a !in rest ==> accounts[a] in list)
    && (forall i, j :: 0 <= i < j < |list| ==> list[i] != list[j])
    && SortedByIndex(list)
  }

  lemma CollectStep(list: seq<AccountInfo>, accounts: map<Address, AccountInfo>, rest: set<Address>, a: Address)
    requires KeysMatch(accounts) && Collected(list, accounts, rest) && a in rest
    ensures Collected(Insert(list, LowerBound(list, accounts[a].index), accounts[a]), accounts, rest - {a})
  {
    var ai := accounts[a];
    var p := LowerBound(list, ai.index);
    InsertKeepsSorted(list, ai);
    var next := Insert(list, p, ai);
    StepEntries(list, accounts, rest, a, p);
    StepCovers(list, accounts, rest, a, p);
    StepDistinct(list, accounts, rest, a, p);
  }

  lemma StepEntries(list: seq<AccountInfo>, accounts: map<Address, AccountInfo>, rest: set<Address>, a: Address, p: nat)
    requires KeysMatch(accounts) && Collected(list, accounts, rest) && a in rest && p <= |list|
    ensures var next := Insert(list, p, accounts[a]);
      forall i :: 0 <= i < |next| ==>
        next[i].address in accounts && next[i].address !in rest - {a} && accounts[next[i].address] == next[i]
  {
    var next := Insert(list, p, accounts[a]);
    assert forall i :: 0 <= i < |next| ==> next[i] == if i < p then list[i] else if i == p then accounts[a] else list[i - 1];
  }

  lemma StepCovers(list: seq<AccountInfo>, accounts: map<Address, AccountInfo>, rest: set<Address>, a: Address, p: nat)
    requires KeysMatch(accounts) && Collected(list, accounts, rest) && a in rest && p <= |list|
    ensures var next := Insert(list, p, accounts[a]);
      forall b :: b in accounts && b !in rest - {a} ==> accounts[b] in next
  {
    var next := Insert(list, p, accounts[a]);
    forall b | b in accounts && b !in rest - {a}
      ensures accounts[b] in next
    {
      if b != a {
        var i :| 0 <= i < |list| && list[i] == accounts[b];
        assert next[if i < p then i else i + 1] == accounts[b];
      } else {
        assert next[p] == accounts[a];
      }
    }
  }

  lemma StepDistinct(list: seq<AccountInfo>, accounts: map<Address, AccountInfo>, rest: set<Address>, a: Address, p: nat)
    requires KeysMatch(accounts) && Collected(list, accounts, rest) && a in rest && p <= |list|
    ensures var next := Insert(list, p, accounts[a]);
      forall i, j :: 0 <= i < j < |next| ==> next[i] != next[j]
  {
    var next := Insert(list, p, accounts[a]);
    forall i | 0 <= i < |list|
      ensures list[i] != accounts[a]
    {
      assert list[i].address !in rest;
    }
    assert forall i :: 0 <= i < |next| ==> next[i] == if i < p then list[i] else if i == p then accounts[a] else list[i - 1];
  }

  /** The records of the map, collected in some order and each inserted at its lower bound:
      the list initAccountsList builds, holding every record once, sorted by index. */
  method SortedRecords(accounts: map<Address, AccountInfo>) returns (list: seq<AccountInfo>)
    requires KeysMatch(accounts)
    ensures Mirrors(list, accounts) && SortedByIndex(list)
  {
    var rest := accounts.Keys;
    list := [];
    while rest != {}
      invariant Collected(list, accounts, rest)
      decreases |rest|
    {
      var a :| a in rest;
      var p := SearchIndex(list, accounts[a].index);
      CollectStep(list, accounts, rest, a);
      list := Insert(list, p, accounts[a]);
      rest := rest - {a};
    }
    forall a | a in accounts
      ensures Listed(list, accounts[a])
    {
      ListedIff(list, accounts[a]);
    }
  }

  /** Recording a new record under its own, previously unknown, address and inserting it at
      its lower bound keeps the list a sorted mirror of the map. */
  lemma InsertKeepsMirror(list: seq<AccountInfo>, accounts: map<Address, AccountInfo>, x: AccountInfo)
    requires KeysMatch(accounts) && Mirrors(list, accounts) && SortedByIndex(list)
    requires x.address !in accounts && x !in list
    ensures var next := Insert(list, LowerBound(list, x.index), x);
      KeysMatch(accounts[x.address := x]) && Mirrors(next, accounts[x.address := x]) && SortedByIndex(next)
  {
    var p := LowerBound(list, x.index);
    InsertKeepsSorted(list, x);
    InsertEntries(list, accounts, x, p);
    InsertCovers(list, accounts, x, p);
    InsertDistinct(list, x, p);
    assert |accounts[x.address := x]| == |accounts| + 1;
  }

  /** A record whose index no known record has keeps the indices distinct. */
  lemma InsertFreshIndex(list: seq<AccountInfo>, accounts: map<Address, AccountInfo>, x: AccountInfo)
    requires Mirrors(list, accounts) && DistinctIndices(list)
    requires forall a :: a in accounts ==> accounts[a].index != x.index
    ensures DistinctIndices(Insert(list, LowerBound(list, x.index), x))
  {
    forall i | 0 <= i < |list|
      ensures list[i].index != x.index
    {
      assert list[i].address in accounts && accounts[list[i].address] == list[i];
    }
    InsertKeepsDistinct(list, x, LowerBound(list, x.index));
  }

  lemma InsertEntries(list: seq<AccountInfo>, accounts: map<Address, AccountInfo>, x: AccountInfo, p: nat)
    requires Mirrors(list, accounts) && x.address !in accounts && p <= |list|
    ensures var next, m := Insert(list, p, x), accounts[x.address := x];
      forall i :: 0 <= i < |next| ==> next[i].address in m && m[next[i].address] == next[i]
  {
    var next := Insert(list, p, x);
    assert forall i :: 0 <= i < |next| ==> next[i] == if i < p then list[i] else if i == p then x else list[i - 1];
  }

  lemma InsertCovers(list: seq<AccountInfo>, accounts: map<Address, AccountInfo>, x: AccountInfo, p: nat)
    requires Mirrors(list, accounts) && p <= |list|
    ensures var next, m := Insert(list, p, x), accounts[x.address := x];
      forall b :: b in m ==> Listed(next, m[b])
  {
    var next, m := Insert(list, p, x), accounts[x.address := x];
    forall b | b in m
      ensures Listed(next, m[b])
    {
      if b != x.address {
        ListedIff(list, accounts[b]);
        var i :| 0 <= i < |list| && list[i] == accounts[b];
        assert next[if i < p then i else i + 1] == m[b];
      } else {
        assert next[p] == x;
      }
      ListedIff(next, m[b]);
    }
  }

  lemma InsertDistinct(list: seq<AccountInfo>, x: AccountInfo, p: nat)
    requires (forall i, j :: 0 <= i < j < |list| ==> list[i] != list[j]) && x !in list && p <= |list|
    ensures var next := Insert(list, p, x);
      forall i, j :: 0 <= i < j < |next| ==> next[i] != next[j]
  {
    var next := Insert(list, p, x);
    assert forall i :: 0 <= i < |next| ==> next[i] == if i < p then list[i] else if i == p then x else list[i - 1];
  }

  /** A fresh derivation index keeps the indices distinct. */
  lemma InsertKeepsDistinct(list: seq<AccountInfo>, x: AccountInfo, p: nat)
    requires p <= |list| && DistinctIndices(list)
    requires forall i :: 0 <= i < |list| ==> list[i].index != x.index
    ensures DistinctIndices(Insert(list, p, x))
  {
    var next := Insert(list, p, x);
    assert forall i :: 0 <= i < |next| ==> next[i] == if i < p then list[i] else if i == p then x else list[i - 1];
  }

  /** Dropping a listed record from both views keeps the list a sorted mirror of the map. */
  lemma RemoveKeepsMirror(list: seq<AccountInfo>, accounts: map<Address, AccountInfo>, p: nat)
    requires KeysMatch(accounts) && Mirrors(list, accounts) && SortedByIndex(list) && p < |list|
    ensures var m := accounts - {list[p].address};
      KeysMatch(m) && Mirrors(RemoveAt(list, p), m) && SortedByIndex(RemoveAt(list, p))
  {
    RemoveKeepsOrder(list, p);
    RemoveEntries(list, accounts, p);
    RemoveCovers(list, accounts, p);
    RemoveDistinct(list, p);
  }

  lemma RemoveEntries(list: seq<AccountInfo>, accounts: map<Address, AccountInfo>, p: nat)
    requires Mirrors(list, accounts) && p < |list|
    ensures var next, m := RemoveAt(list, p), accounts - {list[p].address};
      forall i :: 0 <= i < |next| ==> next[i].address in m && m[next[i].address] == next[i]
  {
    var next := RemoveAt(list, p);
    assert forall i :: 0 <= i < |next| ==> next[i] == if i < p then list[i] else list[i + 1];
  }

  lemma RemoveCovers(list: seq<AccountInfo>, accounts: map<Address, AccountInfo>, p: nat)
    requires KeysMatch(accounts) && Mirrors(list, accounts) && p < |list|
    ensures var next, m := RemoveAt(list, p), accounts - {list[p].address};
      forall b :: b in m ==> Listed(next, m[b])
  {
    var next, m := RemoveAt(list, p), accounts - {list[p].address};
    forall b | b in m
      ensures Listed(next, m[b])
    {
      ListedIff(list, accounts[b]);
      ListedIff(next, m[b]);
      var i :| 0 <= i < |list| && list[i] == accounts[b];
      assert i != p;
      assert next[if i < p then i else i - 1] == m[b];
    }
  }

  lemma RemoveDistinct(list: seq<AccountInfo>, p: nat)
    requires (forall i, j :: 0 <= i < j < |list| ==> list[i] != list[j]) && p < |list|
    ensures var next := RemoveAt(list, p);
      forall i, j :: 0 <= i < j < |next| ==> next[i] != next[j]
  {
    var next := RemoveAt(list, p);
    assert forall i :: 0 <= i < |next| ==> next[i] == if i < p then list[i] else list[i + 1];
  }

  /** Removing a listed record at the lower bound of its index removes that very record, and
      keeps the list a sorted mirror of the map with distinct indices. */
  lemma RemoveMember(list: seq<AccountInfo>, accounts: map<Address, AccountInfo>, x: AccountInfo)
    requires KeysMatch(accounts) && Mirrors(list, accounts) && SortedByIndex(list)
    requires DistinctIndices(list) && x in list
    ensures var p := LowerBound(list, x.index);
      && p < |list| && list[p] == x
      && var next, m := RemoveAt(list, p), accounts - {x.address};
      && KeysMatch(m) && Mirrors(next, m) && SortedByIndex(next) && DistinctIndices(next)
  {
    var q :| 0 <= q < |list| && list[q] == x;
    LowerBoundFindsMember(list, q);
    RemoveKeepsOrder(list, q);
    RemoveKeepsMirror(list, accounts, q);
  }

  /** With distinct indices, the lower bound of a listed record's index is its own position. */
  lemma LowerBoundFindsMember(l: seq<AccountInfo>, q: nat)
    requires SortedByIndex(l) && DistinctIndices(l) && q < |l|
    ensures LowerBound(l, l[q].index) == q
  {
    LowerBoundSplits(l, l[q].index);
  }

  /** walletInfo. `unlocked` stands for the Go field `w` being non-nil: the key material has been
      opened and the account list has been built. */
  class WalletInfo {
    var name: string  // the wallet's Label, as shown in the wallet list
    const seed: string
    const salt: string
    const isBip39: bool
    const isLedger: bool
    var unlocked: bool
    var accounts: map<Address, AccountInfo>
    var accountsList: seq<AccountInfo>

    /** Once unlocked, the list mirrors the map and is sorted by derivation index. */
    predicate Valid()
      reads this
    {
      KeysMatch(accounts) && (unlocked ==> Mirrors(accountsList, accounts) && SortedByIndex(accountsList))
    }

    /** A wallet as the configuration or a creation dialog describes it, still locked. */
    constructor (name: string, seed: string, salt: string, isBip39: bool, isLedger: bool,
                 accounts: map<Address, AccountInfo>)
      requires KeysMatch(accounts)
      ensures Valid() && !unlocked
      ensures this.name == name && this.seed == seed && this.salt == salt
      ensures this.isBip39 == isBip39 && this.isLedger == isLedger
      ensures this.accounts == accounts && accountsList == []
    {
      this.name := name;
      this.seed := seed;
      this.salt := salt;
      this.isBip39 := isBip39;
      this.isLedger := isLedger;
      unlocked := false;
      this.accounts := accounts;
      accountsList := [];
    }

    /** initSeed, initBip39 or initLedger on a wallet being created: the wallet is opened when
        the library call (whose outcome is `unlock`) succeeds. It has no accounts yet. */
    method Open(unlock: Outcome) returns (r: Outcome)
      requires Valid() && !unlocked && accounts == map[] && accountsList == []
      modifies this
      ensures Valid() && r == unlock && unlocked == unlock.Pass?
      ensures accounts == map[] && accountsList == [] && name == old(name)
    {
      r := unlock;
      if unlock.Pass? {
        unlocked := true;
      }
    }

    /** getBalances: one batched query for every listed address, in list order; nothing is
        asked for an empty list. A failed query changes no balance; a successful one overwrites
        exactly the reported addresses. */
    method GetBalances(query: Result<map<Address, AccountBalance>>) returns (r: Outcome, asked: seq<Address>)
      requires Valid() && unlocked
      requires query.Ok? ==> query.value.Keys <= accounts.Keys
      modifies accounts.Values
      ensures asked == Addresses(accountsList)
      ensures r == if asked != [] && query.Err? then Fail(query.error) else Pass
      ensures Refreshed(accounts, if asked != [] && query.Ok? then query.value else map[])
    {
      if |accountsList| == 0 {
        return Pass, [];
      }
      asked := Addresses(accountsList);
      if query.Err? {
        return Fail(query.error), asked;
      }
      WriteBalances(accounts, query.value);
      r := Pass;
    }

    /** initAccountsList: rebuild the list from the map's records, sorted by derivation index,
        then refresh every balance. */
    method InitAccountsList(query: Result<map<Address, AccountBalance>>) returns (r: Outcome, asked: seq<Address>)
      requires KeysMatch(accounts) && unlocked
      requires query.Ok? ==> query.value.Keys <= accounts.Keys
      modifies this, accounts.Values
      ensures Valid() && unlocked
      ensures accounts == old(accounts) && name == old(name)
      ensures asked == Addresses(accountsList)
      ensures r == if asked != [] && query.Err? then Fail(query.error) else Pass
      ensures Refreshed(accounts, if asked != [] && query.Ok? then query.value else map[])
    {
      var list := SortedRecords(accounts);
      accountsList := list;
      r, asked := GetBalances(query);
    }

    /** init: nothing to do for a wallet that is already unlocked. Otherwise the routine chosen
        by the wallet's kind runs (its outcome is `unlock`), and on success the account list is
        built and the balances are fetched. The wallet stays unlocked even when only the
        balance query failed. */
    method Init(unlock: Outcome, query: Result<map<Address, AccountBalance>>)
      returns (r: Outcome, path: Option<UnlockPath>)
      requires Valid()
      requires query.Ok? ==> query.value.Keys <= accounts.Keys
      modifies this, accounts.Values
      ensures Valid()
      ensures accounts == old(accounts) && name == old(name)
      ensures old(unlocked) ==> r == Pass && path == None && unchanged(this)
                                && Refreshed(accounts, map[])
      ensures !old(unlocked) ==> path == Some(PathFor(isLedger, isBip39))
      ensures !old(unlocked) && unlock.Fail? ==>
        r == unlock && unchanged(this) && Refreshed(accounts, map[])
      ensures !old(unlocked) && unlock.Pass? ==>
        && unlocked
        && r == (if accountsList != [] && query.Err? then Fail(query.error) else Pass)
        && Refreshed(accounts, if accountsList != [] && query.Ok? then query.value else map[])
    {
      if unlocked {
        return Pass, None;
      }
      path := Some(PathFor(isLedger, isBip39));
      if unlock.Fail? {
        return unlock, path;
      }
      unlocked := true;
      var asked;
      r, asked := InitAccountsList(query);
    }

    /** initAccounts: after a successful scan, every scanned account is recorded under its
        address as a new record (replacing one already there), and the list is rebuilt and its
        balances fetched. A reported address then has the reported amounts; any other scanned
        one is unknown, and every other record keeps what it had. */
    method InitAccounts(scan: Outcome, scanned: seq<Derived>, query: Result<map<Address, AccountBalance>>)
      returns (r: Outcome)
      requires Valid() && unlocked
      requires query.Ok? ==> query.value.Keys <= accounts.Keys + ScannedAddresses(scanned)
      modifies this, accounts.Values
      ensures Valid() && unlocked && name == old(name)
      ensures scan.Fail? ==> r == scan && unchanged(this) && Refreshed(accounts, map[])
      ensures scan.Pass? ==>
        && IndexMap(accounts) == Merged(IndexMap(old(accounts)), scanned)
        && (forall a :: a in accounts ==>
              if a in ScannedAddresses(scanned) then fresh(accounts[a])
              else a in old(accounts) && accounts[a] == old(accounts[a]))
        && r == (if accountsList != [] && query.Err? then Fail(query.error) else Pass)
      ensures scan.Pass? ==>
        forall a :: a in accounts ==>
          if accountsList != [] && query.Ok? && a in query.value then
            accounts[a].balance == Some(query.value[a].balance) && accounts[a].pending == Some(query.value[a].pending)
          else if a in ScannedAddresses(scanned) then
            accounts[a].balance == None && accounts[a].pending == None
          else
            accounts[a].balance == old(accounts[a].balance) && accounts[a].pending == old(accounts[a].pending)
    {
      if scan.Fail? {
        return scan;
      }
      RecordAccounts(scanned);
      label Recorded:
      var asked;
      r, asked := InitAccountsList(query);
      ghost var got := if accountsList != [] && query.Ok? then query.value else map[];
      assert Refreshed@Recorded(accounts, got);
      forall a | a in accounts
        ensures if a in got then
            accounts[a].balance == Some(got[a].balance) && accounts[a].pending == Some(got[a].pending)
          else if a in ScannedAddresses(scanned) then
            accounts[a].balance == None && accounts[a].pending == None
          else
            accounts[a].balance == old(accounts[a].balance) && accounts[a].pending == old(accounts[a].pending)
      {
        if a !in got {
          assert accounts[a].balance == old@Recorded(accounts[a].balance);
          assert accounts[a].pending == old@Recorded(accounts[a].pending);
        }
      }
    }

    /** initAccounts' recording step: the scanned accounts enter the map as new records, over
        whatever was stored under their addresses; the list is rebuilt afterwards. */
    method RecordAccounts(scanned: seq<Derived>)
      requires KeysMatch(accounts)
      modifies this
      ensures KeysMatch(accounts) && unlocked == old(unlocked) && name == old(name)
      ensures IndexMap(accounts) == Merged(IndexMap(old(accounts)), scanned)
      ensures forall a :: a in accounts ==>
        if a in ScannedAddresses(scanned) then
          fresh(accounts[a]) && accounts[a].balance == None && accounts[a].pending == None
        else a in old(accounts) && accounts[a] == old(accounts[a])
      ensures forall o :: o in accounts.Values ==> fresh(o) || o in old(accounts.Values)
    {
      ghost var before := accounts;
      accounts := RecordScan(accounts, scanned);
      forall o | o in accounts.Values
        ensures fresh(o) || o in before.Values
      {
        var a :| a in accounts && accounts[a] == o;
        if a !in ScannedAddresses(scanned) {
          assert before[a] == o;
        }
      }
    }

    /** addAccount: derive until the address is not yet in the wallet (or derivation fails),
        record the new account in the map, insert it into the list at its lower bound, and then
        ask for its balance. A failed balance query is not an error: the balance stays unknown.
        `derived` are the successive results of the derivation and `query` that of the balance
        query; `tries` is how many derivations were used. */
    method AddAccount(derived: seq<Result<Derived>>, query: Result<AccountBalance>)
      returns (r: Outcome, tries: nat)
      requires Valid() && unlocked
      requires exists k :: 0 <= k < |derived| && Stops(derived[k], accounts)
      modifies this
      ensures Valid() && unlocked && name == old(name)
      ensures 1 <= tries <= |derived| && Stops(derived[tries - 1], old(accounts))
      ensures forall k :: 0 <= k < tries - 1 ==> !Stops(derived[k], old(accounts))
      ensures derived[tries - 1].Err? ==>
        r == Fail(derived[tries - 1].error) && accounts == old(accounts) && accountsList == old(accountsList)
      ensures derived[tries - 1].Ok? ==>
        var d := derived[tries - 1].value;
        && r == Pass
        && d.address in accounts
        && var ai := accounts[d.address];
        && fresh(ai) && ai.index == d.index
        && accounts == old(accounts)[d.address := ai]
        && accountsList == Insert(old(accountsList), LowerBound(old(accountsList), d.index), ai)
        && ai.balance == (if query.Ok? then Some(query.value.balance) else None)
        && ai.pending == (if query.Ok? then Some(query.value.pending) else None)
      ensures derived[tries - 1].Ok? && DistinctIndices(old(accountsList))
              && (forall a :: a in old(accounts) ==> old(accounts)[a].index != derived[tries - 1].value.index)
              ==> DistinctIndices(accountsList)
    {
      var k := FirstStop(derived, accounts);
      tries := k + 1;
      if derived[k].Err? {
        return Fail(derived[k].error), tries;
      }
      var d := derived[k].value;
      var ai := new AccountInfo(d.address, d.index);
      var p := SearchIndex(accountsList, ai.index);
      InsertKeepsMirror(accountsList, accounts, ai);
      if DistinctIndices(accountsList) && forall a :: a in accounts ==> accounts[a].index != d.index {
        InsertFreshIndex(accountsList, accounts, ai);
      }
      accounts := accounts[d.address := ai];
      accountsList := Insert(accountsList, p, ai);
      if query.Ok? {
        ai.balance, ai.pending := Some(query.value.balance), Some(query.value.pending);
      }
      r := Pass;
    }

    /** removeAccount: drop the record from the map and splice it out of the list at its lower
        bound, which is its own position because indices are distinct. */
    method RemoveAccount(ai: AccountInfo) returns (p: nat)
      requires Valid() && unlocked && DistinctIndices(accountsList)
      requires ai in accountsList
      modifies this
      ensures Valid() && unlocked && DistinctIndices(accountsList) && name == old(name)
      ensures accounts == old(accounts) - {ai.address}
      ensures p == LowerBound(old(accountsList), ai.index)
      ensures p < |old(accountsList)| && old(accountsList)[p] == ai
      ensures accountsList == RemoveAt(old(accountsList), p)
    {
      RemoveMember(accountsList, accounts, ai);
      p := SearchIndex(accountsList, ai.index);
      accounts, accountsList := accounts - {ai.address}, RemoveAt(accountsList, p);
    }
  }
}
