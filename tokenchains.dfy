/** The token-chain manager of tokenchain.go: a cache of token chains by address and of tokens
    by genesis hash. Library and RPC calls are not modelled: their results are inputs, and each
    operation returns the trace of external calls it made, in order. */
module TokenChains {
  import opened Common
  import opened Hex

  type Hash = seq<Byte>

  /** A token chain, known by its account address. */
  datatype Chain = Chain(address: Address)

  /** A token, known by the hash of its genesis block. */
  datatype Token = Token(hash: Hash, name: string, decimals: Byte)

  /** What the library reports for a token looked up on a chain. */
  datatype TokenMeta = TokenMeta(name: string, decimals: Byte)

  /** The external calls the manager makes. */
  datatype Call =
    | NewChain
    | Send(from: Address, to: Address, amount: int)
    | WaitForOpen(chain: Address)
    | ReadRepresentative(account: Address)
    | TokenGenesis(chain: Address, account: Address, name: string, supply: int, decimals: Byte)
    | Transfer(token: Hash, from: Address, to: Address, amount: int)
    | ChangeRep(account: Address, rep: Address)
    | LoadChain(address: Address)
    | ParseChain(chain: Address)
    | SaveState(chain: Address)
    | BlockInfo(hash: Hash)
    | ChainToken(chain: Address, hash: Hash)

  /** The answers the outside world gives to one createToken. */
  datatype CreateResponses = CreateResponses(
    newChain: Result<Address>, send: Outcome, waitForOpen: Outcome,
    representative: Result<Address>, genesis: Result<Hash>, changeRep: Outcome)

  /** The answers the outside world gives to one transferToken. */
  datatype TransferResponses = TransferResponses(
    representative: Result<Address>, transfer: Result<Hash>, changeRep: Outcome)

  /** The answers the outside world gives to one fetchChain. */
  datatype ChainResponses = ChainResponses(load: Outcome, parse: Outcome, saveState: Outcome)

  /** The answers the outside world gives to one fetchToken. */
  datatype TokenResponses = TokenResponses(
    blockAccount: Result<Address>, chain: ChainResponses, token: Result<TokenMeta>)

  // ---------------------------------------------------------------------------------------
  // A sequence of steps that stops at the first error

  function Status<T>(r: Result<T>): Outcome {
    if r.Ok? then Pass else Fail(r.error)
  }

  /** The position of the first failing step, or the number of steps when none fails. */
  function FailAt(outs: seq<Outcome>): (i: nat)
    ensures i <= |outs|
    ensures forall j :: 0 <= j < i ==> outs[j].Pass?
    ensures i < |outs| ==> outs[i].Fail?
  {
    if outs == [] then 0 else if outs[0].Fail? then 0 else 1 + FailAt(outs[1..])
  }

  /** How many steps run: all of them, or up to and including the first that fails. */
  function Reached(outs: seq<Outcome>): (n: nat)
    ensures n <= |outs|
  {
    if FailAt(outs) < |outs| then FailAt(outs) + 1 else |outs|
  }

  /** The outcome of the whole sequence: the first failure, or success. */
  function Overall(outs: seq<Outcome>): (o: Outcome)
    ensures o.Pass? <==> forall j :: 0 <= j < |outs| ==> outs[j].Pass?
  {
    if FailAt(outs) < |outs| then outs[FailAt(outs)] else Pass
  }

  /** Pins down FailAt for a known first failure. */
  lemma FailAtIs(outs: seq<Outcome>, k: nat)
    requires k <= |outs| && forall j :: 0 <= j < k ==> outs[j].Pass?
    requires k < |outs| ==> outs[k].Fail?
    ensures FailAt(outs) == k
  {
  }

  // ---------------------------------------------------------------------------------------
  // The step plans of the operations that talk to the network

  /** The chain a new token goes on: the one given, or the one just created. */
  function TargetChain(chain: Option<Chain>, resp: CreateResponses): Address {
    if chain.Some? then chain.value.address
    else if resp.newChain.Ok? then resp.newChain.value
    else ""
  }

  /** The steps of createToken, each paired (by position) with its outcome in CreateOutcomes. */
  function CreatePlan(chain: Option<Chain>, account: Address, name: string, supply: int,
                      decimals: Byte, resp: CreateResponses): seq<Call>
  {
    var c := TargetChain(chain, resp);
    var rep := if resp.representative.Ok? then resp.representative.value else "";
    (if chain.None? then [NewChain, Send(account, c, 1), WaitForOpen(c)] else [])
      + [ReadRepresentative(account), TokenGenesis(c, account, name, supply, decimals),
         ChangeRep(account, rep)]
  }

  function CreateOutcomes(chain: Option<Chain>, resp: CreateResponses): (outs: seq<Outcome>)
    ensures |outs| == if chain.None? then 6 else 3
  {
    (if chain.None? then [Status(resp.newChain), resp.send, resp.waitForOpen] else [])
      + [Status(resp.representative), Status(resp.genesis), resp.changeRep]
  }

  function TransferPlan(token: Token, account: Address, to: Address, amount: int,
                        resp: TransferResponses): seq<Call>
  {
    var rep := if resp.representative.Ok? then resp.representative.value else "";
    [ReadRepresentative(account), Transfer(token.hash, account, to, amount), ChangeRep(account, rep)]
  }

  function TransferOutcomes(resp: TransferResponses): seq<Outcome> {
    [Status(resp.representative), Status(resp.transfer), resp.changeRep]
  }

  /** The steps of fetchChain: a chain not yet cached is loaded first. */
  function ChainPlan(address: Address, cached: bool): seq<Call> {
    (if cached then [] else [LoadChain(address)]) + [ParseChain(address), SaveState(address)]
  }

  function ChainOutcomes(cached: bool, resp: ChainResponses): (outs: seq<Outcome>)
    ensures |outs| == |ChainPlan("", cached)|
  {
    (if cached then [] else [resp.load]) + [resp.parse, resp.saveState]
  }

  /** Every write to the ledger in a trace is directly preceded by reading the writing account's
      representative. */
  predicate RepReadBeforeWrite(calls: seq<Call>) {
    forall j :: 0 <= j < |calls| && (calls[j].TokenGenesis? || calls[j].Transfer?) ==>
      j >= 1 && calls[j - 1] == ReadRepresentative(if calls[j].TokenGenesis? then calls[j].account
                                                    else calls[j].from)
  }

  /** A trace that ends by writing with `account` and then restoring the representative `rep`
      read just before the write. */
  predicate RepRestored(calls: seq<Call>, account: Address, rep: Address) {
    |calls| >= 3 && calls[|calls| - 3] == ReadRepresentative(account)
    && (calls[|calls| - 2].TokenGenesis? || calls[|calls| - 2].Transfer?)
    && calls[|calls| - 1] == ChangeRep(account, rep)
  }

  /** Every prefix of the createToken plan reads the representative before writing, and the
      full plan ends by restoring the representative that was read. */
  lemma CreatePlanBracketsWrite(chain: Option<Chain>, account: Address, name: string, supply: int,
                                decimals: Byte, resp: CreateResponses, n: nat)
    requires n <= |CreatePlan(chain, account, name, supply, decimals, resp)|
    ensures RepReadBeforeWrite(CreatePlan(chain, account, name, supply, decimals, resp)[..n])
    ensures resp.representative.Ok? ==>
      RepRestored(CreatePlan(chain, account, name, supply, decimals, resp), account,
                  resp.representative.value)
  {
    var plan := CreatePlan(chain, account, name, supply, decimals, resp);
    var w := if chain.None? then 4 else 1;
    assert forall j :: 0 <= j < |plan| && j != w ==> !plan[j].TokenGenesis? && !plan[j].Transfer?;
  }

  lemma TransferPlanBracketsWrite(token: Token, account: Address, to: Address, amount: int,
                                  resp: TransferResponses, n: nat)
    requires n <= 3
    ensures RepReadBeforeWrite(TransferPlan(token, account, to, amount, resp)[..n])
    ensures resp.representative.Ok? ==>
      RepRestored(TransferPlan(token, account, to, amount, resp), account, resp.representative.value)
  {
  }

  // ---------------------------------------------------------------------------------------
  // transferToken: touches no cache

  /** transferToken: read the representative, transfer, and restore the representative; the
      first failing step's error is the result. */
  function TransferToken(token: Token, account: Address, to: Address, amount: int,
                         resp: TransferResponses): (r: (Result<Hash>, seq<Call>))
    ensures r.1 == TransferPlan(token, account, to, amount, resp)[..Reached(TransferOutcomes(resp))]
    ensures r.0.Ok? <==> Overall(TransferOutcomes(resp)).Pass?
    ensures r.0.Ok? ==> resp.transfer.Ok? && r.0.value == resp.transfer.value
    ensures r.0.Err? ==> r.0.error == Overall(TransferOutcomes(resp)).error
    ensures RepReadBeforeWrite(r.1)
    ensures r.0.Ok? ==> resp.representative.Ok? && RepRestored(r.1, account, resp.representative.value)
  {
    var plan := TransferPlan(token, account, to, amount, resp);
    var outs := TransferOutcomes(resp);
    TransferPlanBracketsWrite(token, account, to, amount, resp, Reached(outs));
    if resp.representative.Err? then
      FailAtIs(outs, 0);
      (Err(resp.representative.error), plan[..1])
    else if resp.transfer.Err? then
      FailAtIs(outs, 1);
      (Err(resp.transfer.error), plan[..2])
    else if resp.changeRep.Fail? then
      FailAtIs(outs, 2);
      (Err(resp.changeRep.error), plan)
    else
      FailAtIs(outs, 3);
      (Ok(resp.transfer.value), plan)
  }

  // ---------------------------------------------------------------------------------------
  // Sorting tokens by hash

  /** Hashes strictly increase along the list. */
  predicate SortedByHash(l: seq<Token>) {
    forall i, j :: 0 <= i < j < |l| ==> LexLess(l[i].hash, l[j].hash)
  }

  /** How many of the cached hashes sort below h: the row at which h is listed. */
  function Rank(tokens: map<Hash, Token>, h: Hash): nat {
    |set k | k in tokens && LexLess(k, h)|
  }

  /** In a list of every cached token sorted by hash, the token at position id has exactly id
      hashes below it. */
  lemma RankInSorted(list: seq<Token>, tokens: map<Hash, Token>, id: nat)
    requires SortedByHash(list) && id < |list|
    requires forall i :: 0 <= i < |list| ==> list[i].hash in tokens
    requires forall h :: h in tokens ==> tokens[h] in list && tokens[h].hash == h
    ensures Rank(tokens, list[id].hash) == id
  {
    var below := set k | k in tokens && LexLess(k, list[id].hash);
    forall k | k in below
      ensures k in HashesBefore(list, id)
    {
      var j :| 0 <= j < |list| && list[j] == tokens[k];
      if j >= id {
        if j == id {
          LexLessIrreflexive(k);
        } else {
          LexLessAsymmetric(k, list[id].hash);
        }
      }
    }
    forall k | k in HashesBefore(list, id)
      ensures k in below
    {
      var j :| 0 <= j < id && list[j].hash == k;
    }
    assert below == HashesBefore(list, id);
    HashesBeforeCount(list, id);
  }

  /** The hashes of the first n tokens of a list. */
  function HashesBefore(list: seq<Token>, n: nat): set<Hash>
    requires n <= |list|
  {
    set j | 0 <= j < n :: list[j].hash
  }

  lemma {:induction false} HashesBeforeCount(list: seq<Token>, n: nat)
    requires SortedByHash(list) && n <= |list|
    ensures |HashesBefore(list, n)| == n
  {
    if n > 0 {
      HashesBeforeCount(list, n - 1);
      assert HashesBefore(list, n) == HashesBefore(list, n - 1) + {list[n - 1].hash};
      if list[n - 1].hash in HashesBefore(list, n - 1) {
        var j :| 0 <= j < n - 1 && list[j].hash == list[n - 1].hash;
        LexLessIrreflexive(list[j].hash);
      }
    }
  }

  /** Inserts a token with a new hash at its place in a list sorted by hash. */
  function InsertByHash(l: seq<Token>, t: Token): (r: seq<Token>)
    requires SortedByHash(l) && forall x :: x in l ==> x.hash != t.hash
    ensures SortedByHash(r) && |r| == |l| + 1
    ensures forall x :: x in r <==> x in l || x == t
  {
    if l == [] then [t]
    else if LexLess(t.hash, l[0].hash) then
      InsertFront(l, t);
      [t] + l
    else
      LexLessTotal(t.hash, l[0].hash);
      assert l == [l[0]] + l[1..];
      var rest := InsertByHash(l[1..], t);
      InsertBehind(l, t, rest);
      [l[0]] + rest
  }

  lemma InsertFront(l: seq<Token>, t: Token)
    requires SortedByHash(l) && l != [] && LexLess(t.hash, l[0].hash)
    ensures SortedByHash([t] + l)
    ensures forall x :: x in [t] + l <==> x in l || x == t
  {
    var r := [t] + l;
    forall i, j | 0 <= i < j < |r|
      ensures LexLess(r[i].hash, r[j].hash)
    {
      assert r[j] == l[j - 1];
      if i > 0 {
        assert r[i] == l[i - 1];
      } else if j > 1 {
        LexLessTransitive(t.hash, l[0].hash, l[j - 1].hash);
      }
    }
  }

  lemma InsertBehind(l: seq<Token>, t: Token, rest: seq<Token>)
    requires SortedByHash(l) && l != [] && LexLess(l[0].hash, t.hash)
    requires SortedByHash(rest) && forall x :: x in rest <==> x in l[1..] || x == t
    ensures SortedByHash([l[0]] + rest)
    ensures forall x :: x in [l[0]] + rest <==> x in l || x == t
  {
    var r := [l[0]] + rest;
    forall x | x in rest
      ensures LexLess(l[0].hash, x.hash)
    {
      if x != t {
        var k :| 0 <= k < |l[1..]| && l[1..][k] == x;
        assert l[k + 1] == x;
      }
    }
    forall i, j | 0 <= i < j < |r|
      ensures LexLess(r[i].hash, r[j].hash)
    {
      assert r[j] == rest[j - 1] && rest[j - 1] in rest;
      if i > 0 {
        assert r[i] == rest[i - 1];
      }
    }
    assert l == [l[0]] + l[1..];
  }

  /** Runs of parse: each chain in turn is parsed and its state saved; the first error stops
      the run. */
  function ParseRun(order: seq<Address>, parse: Address -> Outcome, save: Address -> Outcome)
    : (r: (Outcome, seq<Call>))
  {
    if order == [] then (Pass, [])
    else if parse(order[0]).Fail? then (parse(order[0]), [ParseChain(order[0])])
    else if save(order[0]).Fail? then (save(order[0]), [ParseChain(order[0]), SaveState(order[0])])
    else
      var rest := ParseRun(order[1..], parse, save);
      (rest.0, [ParseChain(order[0]), SaveState(order[0])] + rest.1)
  }

  /** The position of the first chain that fails to parse or save, or |order| when none does. */
  function FirstBadChain(order: seq<Address>, parse: Address -> Outcome, save: Address -> Outcome)
    : (k: nat)
    ensures k <= |order|
    ensures forall i :: 0 <= i < k ==> parse(order[i]).Pass? && save(order[i]).Pass?
    ensures k < |order| ==> parse(order[k]).Fail? || save(order[k]).Fail?
  {
    if order == [] then 0
    else if parse(order[0]).Fail? || save(order[0]).Fail? then 0
    else 1 + FirstBadChain(order[1..], parse, save)
  }

  /** A run parses and saves every chain before the first bad one, stops on that one, and
      reports its error; it succeeds exactly when there is no bad chain. Later chains are not
      touched. */
  lemma {:induction false} ParseRunStopsAtFirstError(order: seq<Address>, parse: Address -> Outcome,
                                                     save: Address -> Outcome)
    ensures var k := FirstBadChain(order, parse, save);
      && ParseRun(order, parse, save).1 == ParsedAll(order[..k]) +
           (if k == |order| then []
            else if parse(order[k]).Fail? then [ParseChain(order[k])]
            else [ParseChain(order[k]), SaveState(order[k])])
      && ParseRun(order, parse, save).0 ==
           (if k == |order| then Pass
            else if parse(order[k]).Fail? then parse(order[k])
            else save(order[k]))
  {
    if order == [] {
    } else if parse(order[0]).Fail? || save(order[0]).Fail? {
      assert order[..0] == [];
    } else {
      ParseRunStopsAtFirstError(order[1..], parse, save);
      var k := FirstBadChain(order, parse, save);
      assert order[..k][1..] == order[1..][..k - 1];
      ParsedAllCons(order[..k]);
      if k < |order| {
        assert order[k] == order[1..][k - 1];
      }
    }
  }

  /** parse succeeds exactly when every chain parses and saves. */
  lemma ParseRunPasses(order: seq<Address>, parse: Address -> Outcome, save: Address -> Outcome)
    ensures ParseRun(order, parse, save).0.Pass? <==>
      forall i :: 0 <= i < |order| ==> parse(order[i]).Pass? && save(order[i]).Pass?
  {
    ParseRunStopsAtFirstError(order, parse, save);
  }

  /** One step of a run, taken from position `i` of the order. */
  lemma ParseRunStep(order: seq<Address>, i: nat, parse: Address -> Outcome, save: Address -> Outcome)
    requires i < |order|
    ensures var a := order[i];
      ParseRun(order[i..], parse, save) ==
        if parse(a).Fail? then (parse(a), [ParseChain(a)])
        else if save(a).Fail? then (save(a), [ParseChain(a), SaveState(a)])
        else (ParseRun(order[i + 1..], parse, save).0,
              [ParseChain(a), SaveState(a)] + ParseRun(order[i + 1..], parse, save).1)
  {
    assert order[i..][0] == order[i] && order[i..][1..] == order[i + 1..];
  }

  /** The trace of parsing and saving every chain in order without error. */
  function ParsedAll(order: seq<Address>): seq<Call> {
    if order == [] then [] else [ParseChain(order[0]), SaveState(order[0])] + ParsedAll(order[1..])
  }

  lemma ParsedAllCons(order: seq<Address>)
    requires order != []
    ensures ParsedAll(order) == [ParseChain(order[0]), SaveState(order[0])] + ParsedAll(order[1..])
  {
  }

  /** tokenChainManager: chains by address and tokens by genesis hash. */
  class TokenChainManager {
    var chains: map<Address, Chain>
    var tokens: map<Hash, Token>

    /** Each cache entry is filed under its own key. */
    predicate Valid()
      reads this
    {
      (forall a :: a in chains ==> chains[a].address == a)
      && (forall h :: h in tokens ==> tokens[h].hash == h)
    }

    constructor ()
      ensures Valid() && chains == map[] && tokens == map[]
    {
      chains := map[];
      tokens := map[];
    }

    /** getTokens: every cached token exactly once, sorted by hash bytes. */
    method GetTokens() returns (list: seq<Token>)
      requires Valid()
      ensures SortedByHash(list) && |list| == |tokens|
      ensures forall i :: 0 <= i < |list| ==> list[i].hash in tokens && tokens[list[i].hash] == list[i]
      ensures forall h :: h in tokens ==> tokens[h] in list
    {
      list := [];
      var rest := tokens.Keys;
      while rest != {}
        invariant rest <= tokens.Keys && SortedByHash(list)
        invariant |list| + |rest| == |tokens.Keys|
        invariant forall x :: x in list ==> x.hash in tokens.Keys - rest && tokens[x.hash] == x
        invariant forall h :: h in tokens.Keys - rest ==> tokens[h] in list
        decreases rest
      {
        var h :| h in rest;
        list := InsertByHash(list, tokens[h]);
        rest := rest - {h};
      }
      assert |tokens| == |tokens.Keys|;
      forall i | 0 <= i < |list|
        ensures list[i].hash in tokens && tokens[list[i].hash] == list[i]
      {
        assert list[i] in list;
      }
    }

    /** createToken. Without a chain, a new one is created, funded with one raw unit from the
        account and waited on; only then is it cached. The account's representative is read,
        the genesis written, and the representative restored; only when every step succeeds is
        the token cached under its hash. */
    method CreateToken(chain: Option<Chain>, account: Address, name: string, supply: int,
                       decimals: Byte, resp: CreateResponses)
      returns (r: Result<Token>, calls: seq<Call>)
      requires Valid()
      modifies this
      ensures Valid()
      ensures calls == CreatePlan(chain, account, name, supply, decimals, resp)
                         [..Reached(CreateOutcomes(chain, resp))]
      ensures r.Ok? <==> Overall(CreateOutcomes(chain, resp)).Pass?
      ensures r.Err? ==> r.error == Overall(CreateOutcomes(chain, resp)).error
      ensures r.Ok? ==> resp.genesis.Ok? && r.value == Token(resp.genesis.value, name, decimals)
      ensures tokens == if r.Ok? then old(tokens)[r.value.hash := r.value] else old(tokens)
      ensures chains == if chain.None? && resp.newChain.Ok? && resp.send.Pass? && resp.waitForOpen.Pass?
                        then old(chains)[resp.newChain.value := Chain(resp.newChain.value)]
                        else old(chains)
      ensures RepReadBeforeWrite(calls)
      ensures r.Ok? ==> resp.representative.Ok? && RepRestored(calls, account, resp.representative.value)
    {
      var plan := CreatePlan(chain, account, name, supply, decimals, resp);
      var outs := CreateOutcomes(chain, resp);
      CreatePlanBracketsWrite(chain, account, name, supply, decimals, resp, Reached(outs));
      var base := 0;
      var c: Address;
      if chain.None? {
        if resp.newChain.Err? {
          FailAtIs(outs, 0);
          return Err(resp.newChain.error), plan[..1];
        }
        c := resp.newChain.value;
        if resp.send.Fail? {
          FailAtIs(outs, 1);
          return Err(resp.send.error), plan[..2];
        }
        if resp.waitForOpen.Fail? {
          FailAtIs(outs, 2);
          return Err(resp.waitForOpen.error), plan[..3];
        }
        chains := chains[c := Chain(c)];
        base := 3;
      } else {
        c := chain.value.address;
      }
      if resp.representative.Err? {
        FailAtIs(outs, base);
        return Err(resp.representative.error), plan[..base + 1];
      }
      if resp.genesis.Err? {
        FailAtIs(outs, base + 1);
        return Err(resp.genesis.error), plan[..base + 2];
      }
      var token := Token(resp.genesis.value, name, decimals);
      if resp.changeRep.Fail? {
        FailAtIs(outs, base + 2);
        return Err(resp.changeRep.error), plan;
      }
      FailAtIs(outs, base + 3);
      tokens := tokens[token.hash := token];
      return Ok(token), plan;
    }

    /** fetchChain: a cached chain is reused; otherwise it is loaded and cached, and stays
        cached even when parsing or saving it then fails. */
    method FetchChain(address: Address, resp: ChainResponses) returns (r: Result<Chain>, calls: seq<Call>)
      requires Valid()
      modifies this
      ensures Valid() && tokens == old(tokens)
      ensures calls == ChainPlan(address, address in old(chains))
                         [..Reached(ChainOutcomes(address in old(chains), resp))]
      ensures r.Ok? <==> Overall(ChainOutcomes(address in old(chains), resp)).Pass?
      ensures r.Err? ==> r.error == Overall(ChainOutcomes(address in old(chains), resp)).error
      ensures r.Ok? ==> r.value == Chain(address)
      ensures address in old(chains) ==> chains == old(chains)
      ensures address !in old(chains) ==>
        chains == if resp.load.Pass? then old(chains)[address := Chain(address)] else old(chains)
    {
      var cached := address in chains;
      var plan := ChainPlan(address, cached);
      var outs := ChainOutcomes(cached, resp);
      var base := 0;
      if !cached {
        if resp.load.Fail? {
          FailAtIs(outs, 0);
          return Err(resp.load.error), plan[..1];
        }
        chains := chains[address := Chain(address)];
        base := 1;
      }
      if resp.parse.Fail? {
        FailAtIs(outs, base);
        return Err(resp.parse.error), plan[..base + 1];
      }
      if resp.saveState.Fail? {
        FailAtIs(outs, base + 1);
        return Err(resp.saveState.error), plan;
      }
      FailAtIs(outs, base + 2);
      return Ok(Chain(address)), plan;
    }

    /** fetchToken: a cached token is returned without any lookup. Otherwise the block is looked
        up, its account's chain fetched, and the token read from the chain and cached under
        the hash. */
    method FetchToken(hash: Hash, resp: TokenResponses) returns (r: Result<Token>, calls: seq<Call>)
      requires Valid()
      modifies this
      ensures Valid()
      ensures hash in old(tokens) ==> r == Ok(old(tokens)[hash]) && calls == []
                                      && tokens == old(tokens) && chains == old(chains)
      ensures hash !in old(tokens) && resp.blockAccount.Err? ==>
        r == Err(resp.blockAccount.error) && calls == [BlockInfo(hash)]
        && tokens == old(tokens) && chains == old(chains)
      ensures hash !in old(tokens) && resp.blockAccount.Ok? ==>
        var a := resp.blockAccount.value;
        var outs := ChainOutcomes(a in old(chains), resp.chain);
        var chainCalls := [BlockInfo(hash)] + ChainPlan(a, a in old(chains))[..Reached(outs)];
        && (a !in old(chains) && resp.chain.load.Pass? ==> chains == old(chains)[a := Chain(a)])
        && (a in old(chains) || resp.chain.load.Fail? ==> chains == old(chains))
        && (Overall(outs).Fail? ==> r == Err(Overall(outs).error) && calls == chainCalls)
        && (Overall(outs).Pass? ==> calls == chainCalls + [ChainToken(a, hash)])
        && (Overall(outs).Pass? && resp.token.Err? ==> r == Err(resp.token.error))
        && (Overall(outs).Pass? && resp.token.Ok? ==>
              r == Ok(Token(hash, resp.token.value.name, resp.token.value.decimals)))
      ensures tokens == if hash !in old(tokens) && r.Ok? then old(tokens)[hash := r.value] else old(tokens)
      ensures r.Ok? ==> r.value.hash == hash && hash in tokens && tokens[hash] == r.value
    {
      if hash in tokens {
        return Ok(tokens[hash]), [];
      }
      calls := [BlockInfo(hash)];
      if resp.blockAccount.Err? {
        return Err(resp.blockAccount.error), calls;
      }
      var a := resp.blockAccount.value;
      var c, chainCalls := FetchChain(a, resp.chain);
      calls := calls + chainCalls;
      if c.Err? {
        return Err(c.error), calls;
      }
      calls := calls + [ChainToken(a, hash)];
      if resp.token.Err? {
        return Err(resp.token.error), calls;
      }
      var token := Token(hash, resp.token.value.name, resp.token.value.decimals);
      tokens := tokens[hash := token];
      r := Ok(token);
    }

    /** parse: every cached chain, in map order, is parsed and its state saved, stopping at
        the first error. `order` is the order the map is visited in. */
    method Parse(order: seq<Address>, parse: Address -> Outcome, save: Address -> Outcome)
      returns (r: Outcome, calls: seq<Call>)
      requires multiset(order) == multiset(chains.Keys)
      ensures r == ParseRun(order, parse, save).0 && calls == ParseRun(order, parse, save).1
    {
      calls := [];
      r := Pass;
      var i := 0;
      assert order[0..] == order;
      while i < |order|
        invariant 0 <= i <= |order|
        invariant ParseRun(order, parse, save).0 == ParseRun(order[i..], parse, save).0
        invariant ParseRun(order, parse, save).1 == calls + ParseRun(order[i..], parse, save).1
      {
        var a := order[i];
        ParseRunStep(order, i, parse, save);
        ghost var before := calls;
        calls := calls + [ParseChain(a)];
        if parse(a).Fail? {
          r := parse(a);
          return;
        }
        calls := calls + [SaveState(a)];
        assert calls == before + [ParseChain(a), SaveState(a)];
        if save(a).Fail? {
          r := save(a);
          return;
        }
        i := i + 1;
      }
      assert order[i..] == [];
    }

    /** save: every cached hash, as upper-case hex, once each; then the configuration file is
        written. */
    method Save(write: Outcome) returns (stored: seq<string>, r: Outcome)
      ensures r == write && |stored| == |tokens|
      ensures forall h :: h in tokens ==> Encode(h, true) in stored
      ensures forall i :: 0 <= i < |stored| ==> Decode(stored[i]).Ok? && Decode(stored[i]).value in tokens
      ensures forall i, j :: 0 <= i < j < |stored| ==> stored[i] != stored[j]
    {
      stored := [];
      var rest := tokens.Keys;
      ghost var done: seq<Hash> := [];
      while rest != {}
        invariant rest <= tokens.Keys && |done| == |stored|
        invariant |stored| + |rest| == |tokens.Keys|
        invariant forall i :: 0 <= i < |done| ==> stored[i] == Encode(done[i], true)
        invariant forall i :: 0 <= i < |done| ==> done[i] in tokens.Keys - rest
        invariant forall h :: h in tokens.Keys - rest ==> h in done
        invariant forall i, j :: 0 <= i < j < |done| ==> done[i] != done[j]
        decreases rest
      {
        var h :| h in rest;
        stored := stored + [Encode(h, true)];
        done := done + [h];
        rest := rest - {h};
      }
      assert |tokens| == |tokens.Keys|;
      forall i | 0 <= i < |stored|
        ensures Decode(stored[i]).Ok? && Decode(stored[i]).value in tokens
      {
        DecodeEncode(done[i], true);
      }
      forall h | h in tokens
        ensures Encode(h, true) in stored
      {
        assert h in done;
        var i :| 0 <= i < |done| && done[i] == h;
        assert stored[i] == Encode(h, true);
      }
      forall i, j | 0 <= i < j < |stored|
        ensures stored[i] != stored[j]
      {
        if stored[i] == stored[j] { EncodeInjective(done[i], done[j], true); }
      }
      r := write;
    }
  }
}
