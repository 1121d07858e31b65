/** The token window of one account (token_list.go): the token rows, the selection that enables
    transfers, and the three dialogs that create, add and transfer tokens. Each dialog's checks
    run in order and the first one that fails is the error shown. */
module TokenDialogs {
  import opened Common
  import opened Hex
  import opened Decimal
  import opened Amount
  import opened TokenChains

  /** The end of the run of decimal digits that starts at position i. */
  function RunEnd(s: string, i: nat): (e: nat)
    requires i <= |s|
    ensures i <= e <= |s|
    ensures forall k :: i <= k < e ==> IsDigit(s[k])
    ensures e < |s| ==> !IsDigit(s[e])
    decreases |s| - i
  {
    if i == |s| || !IsDigit(s[i]) then i else RunEnd(s, i + 1)
  }

  /** The digits that s starts with, up to its first non-digit. */
  function DigitRun(s: string): (run: string)
    ensures AllDigits(run) && run <= s
    ensures |run| < |s| ==> !IsDigit(s[|run|])
  {
    s[..RunEnd(s, 0)]
  }

  /** The loop of strconv.ParseUint for base 10 and 8 bits, from position i with the value n
      read so far: a character that is not a digit is a syntax error, and a running value past
      255 is a range error at once, before any later character is looked at. */
  function ScanUint8(s: string, i: nat, n: Byte): Result<Byte>
    requires i <= |s|
    decreases |s| - i
  {
    if i == |s| then Ok(n)
    else if !IsDigit(s[i]) then Err(InvalidDecimals)
    else if n * 10 + DigitValue(s[i]) > 255 then Err(DecimalsOutOfRange)
    else ScanUint8(s, i + 1, n * 10 + DigitValue(s[i]))
  }

  /** What the scan from position i decides, in terms of the leading digit run: its value
      decides a range error, and otherwise a character after it is a syntax error. */
  lemma {:induction false} ScanMeaning(s: string, i: nat, n: Byte)
    requires i <= |s| && AllDigits(s[..i]) && Value(s[..i]) == n
    ensures var e := RunEnd(s, i);
      AllDigits(s[..e]) &&
      ScanUint8(s, i, n) == if Value(s[..e]) >= 256 then Err(DecimalsOutOfRange)
                            else if e < |s| then Err(InvalidDecimals)
                            else Ok(Value(s[..e]))
    decreases |s| - i
  {
    var e := RunEnd(s, i);
    assert AllDigits(s[..e]) by {
      forall k | 0 <= k < e
        ensures IsDigit(s[..e][k])
      {
        if k < i {
          assert s[..e][k] == s[..i][k];
        }
      }
    }
    if i < |s| && IsDigit(s[i]) {
      var m := n * 10 + DigitValue(s[i]);
      assert s[..i + 1][..i] == s[..i];
      assert AllDigits(s[..i + 1]) && Value(s[..i + 1]) == m;
      if m > 255 {
        assert s[..e][..i + 1] == s[..i + 1];
        ValuePrefixBound(s[..e], i + 1);
      } else {
        ScanMeaning(s, i + 1, m);
      }
    }
  }

  /** strconv.ParseUint(s, 10, 8): one or more decimal digits, no sign, at most 255. The text is
      read left to right, so a digit run worth more than 255 is a range error even when a
      non-digit follows it ("300x"); any other non-digit, or the empty text, is a syntax
      error. */
  function ParseUint8(s: string): (r: Result<Byte>)
    ensures r.Ok? <==> s != "" && AllDigits(s) && Value(s) < 256
    ensures r.Ok? ==> r.value == Value(s)
    ensures r == Err(DecimalsOutOfRange) <==> Value(DigitRun(s)) >= 256
    ensures r == Err(InvalidDecimals) <==> s == "" || (!AllDigits(s) && Value(DigitRun(s)) < 256)
  {
    if s == "" then Err(InvalidDecimals)
    else
      ScanMeaning(s, 0, 0);
      assert RunEnd(s, 0) == |s| ==> s[..RunEnd(s, 0)] == s;
      ScanUint8(s, 0, 0)
  }

  /** Every byte value written in decimal is read back by ParseUint8. */
  lemma ParseUint8ToDecimal(b: Byte)
    ensures ParseUint8(ToDecimal(b)) == Ok(b)
  {
    ValueOfToDecimal(b);
  }

  /** The supply check of the new-token dialog: the text must parse at the chosen decimals and
      the amount must fit in 128 bits. */
  function CheckSupply(supplyText: string, decimals: Byte): (r: Result<int>)
    ensures AmountFromString(supplyText, decimals).Err? ==> r == Err(UnableToParseAmount)
    ensures AmountFromString(supplyText, decimals).Ok? ==>
      var supply := AmountFromString(supplyText, decimals).value;
      r == if Abs(supply) < Pow2(128) then Ok(supply) else Err(SupplyTooBig)
  {
    var supply := AmountFromString(supplyText, decimals);
    if supply.Err? then Err(supply.error)
    else
      BitLenBound(Abs(supply.value), 128);
      if BitLen(Abs(supply.value)) > 128 then Err(SupplyTooBig) else supply
  }

  /** What the new-token dialog hands to createToken once its checks pass. */
  datatype NewTokenRequest = NewTokenRequest(account: Address, supply: int, decimals: Byte)

  /** The checks of the new-token dialog, in order: a name, decimals that fit a byte, the
      supply, and the account's own key. */
  function CheckNewToken(name: string, supplyText: string, decimalsText: string,
                         expected: Address, derived: Result<Address>): (r: Result<NewTokenRequest>)
    ensures r.Ok? <==>
      && name != ""
      && ParseUint8(decimalsText).Ok?
      && CheckSupply(supplyText, ParseUint8(decimalsText).value).Ok?
      && derived == Ok(expected)
    ensures r.Ok? ==>
      var decimals := ParseUint8(decimalsText).value;
      r.value == NewTokenRequest(expected, CheckSupply(supplyText, decimals).value, decimals)
    ensures name == "" ==> r == Err(NameEmpty)
    ensures name != "" && ParseUint8(decimalsText).Err? ==> r == Err(ParseUint8(decimalsText).error)
    ensures name != "" && ParseUint8(decimalsText).Ok? ==>
      var supply := CheckSupply(supplyText, ParseUint8(decimalsText).value);
      && (supply.Err? ==> r == Err(supply.error))
      && (supply.Ok? && derived.Err? ==> r == Err(derived.error))
      && (supply.Ok? && derived.Ok? && derived.value != expected ==> r == Err(AddressMismatch))
  {
    if name == "" then Err(NameEmpty)
    else
      var d := ParseUint8(decimalsText);
      if d.Err? then Err(d.error)
      else
        var supply := CheckSupply(supplyText, d.value);
        if supply.Err? then Err(supply.error)
        else
          var account := CheckAddress(expected, derived);
          if account.Err? then Err(account.error)
          else Ok(NewTokenRequest(account.value, supply.value, d.value))
  }

  /** What a token row shows: the hash as upper-case hex, the name, and the account's balance
      written at the token's decimals. */
  datatype Row = Row(hash: string, name: string, balance: string)

  function TokenRow(token: Token, balance: int): (row: Row)
    ensures row.name == token.name
    ensures Decode(row.hash) == Ok(token.hash) && |row.hash| == 2 * |token.hash|
    ensures AmountFromString(row.balance, token.decimals) == Ok(balance)
  {
    DecodeEncode(token.hash, true);
    RoundTrip(balance, token.decimals);
    Row(Encode(token.hash, true), token.name, AmountToString(balance, token.decimals))
  }

  /** The transfer dialog's "Max" button fills in the whole balance, and that text transfers
      exactly the balance. */
  function MaxText(token: Token, balance: int): (s: string)
    ensures AmountFromString(s, token.decimals) == Ok(balance)
  {
    RoundTrip(balance, token.decimals);
    AmountToString(balance, token.decimals)
  }

  /** tokenList: the window of one account, over the shared token cache. */
  class TokenList {
    const tcm: TokenChainManager
    const address: Address
    var selected: Option<Token>
    var transferEnabled: bool

    /** The transfer button is enabled exactly while a token is selected. */
    predicate Valid()
      reads this, tcm
    {
      tcm.Valid() && transferEnabled == selected.Some?
    }

    /** A new window starts with nothing selected. */
    constructor (tcm: TokenChainManager, address: Address)
      requires tcm.Valid()
      ensures Valid() && this.tcm == tcm && this.address == address && selected == None
    {
      this.tcm := tcm;
      this.address := address;
      selected := None;
      transferEnabled := false;
    }

    /** setToken: select a token, or clear the selection with None. */
    method SetToken(token: Option<Token>)
      requires tcm.Valid()
      modifies this
      ensures Valid() && selected == token
    {
      selected := token;
      transferEnabled := token.Some?;
    }

    /** Selecting row `id` selects the token listed there, in hash order. */
    method Select(id: nat)
      requires tcm.Valid() && id < |tcm.tokens|
      modifies this
      ensures Valid() && selected.Some? && selected.value.hash in tcm.tokens
      ensures tcm.tokens[selected.value.hash] == selected.value
      ensures Rank(tcm.tokens, selected.value.hash) == id
    {
      var list := tcm.GetTokens();
      RankInSorted(list, tcm.tokens, id);
      SetToken(Some(list[id]));
    }

    /** The new-token dialog: the checks, then createToken on a new chain, then the cache is
        saved. A failed save is reported but the token stays created. */
    method NewToken(name: string, supplyText: string, decimalsText: string,
                    derived: Result<Address>, resp: CreateResponses, write: Outcome)
      returns (r: Result<Token>, calls: seq<Call>, saved: Option<Outcome>)
      requires Valid()
      modifies tcm
      ensures Valid()
      ensures CheckNewToken(name, supplyText, decimalsText, address, derived).Err? ==>
        && r == Err(CheckNewToken(name, supplyText, decimalsText, address, derived).error)
        && calls == [] && saved == None
        && tcm.tokens == old(tcm.tokens) && tcm.chains == old(tcm.chains)
      ensures CheckNewToken(name, supplyText, decimalsText, address, derived).Ok? ==>
        var q := CheckNewToken(name, supplyText, decimalsText, address, derived).value;
        && calls == CreatePlan(None, q.account, name, q.supply, q.decimals, resp)
                      [..Reached(CreateOutcomes(None, resp))]
        && (r.Ok? <==> Overall(CreateOutcomes(None, resp)).Pass?)
        && (r.Ok? ==> resp.genesis.Ok? && r.value == Token(resp.genesis.value, name, q.decimals))
      ensures CheckNewToken(name, supplyText, decimalsText, address, derived).Ok? ==>
        tcm.chains == if resp.newChain.Ok? && resp.send.Pass? && resp.waitForOpen.Pass?
                      then old(tcm.chains)[resp.newChain.value := Chain(resp.newChain.value)]
                      else old(tcm.chains)
      ensures r.Ok? ==> saved == Some(write) && tcm.tokens == old(tcm.tokens)[r.value.hash := r.value]
      ensures r.Err? ==> saved == None && tcm.tokens == old(tcm.tokens)
    {
      saved := None;
      var q := CheckNewToken(name, supplyText, decimalsText, address, derived);
      if q.Err? {
        return Err(q.error), [], None;
      }
      r, calls := tcm.CreateToken(None, q.value.account, name, q.value.supply, q.value.decimals, resp);
      if r.Ok? {
        var stored, w := tcm.Save(write);
        saved := Some(w);
      }
    }

    /** The add-existing-token dialog: the hash is read as hex, the token is fetched (or found
        in the cache), and the cache is saved. */
    method AddToken(hashText: string, resp: TokenResponses, write: Outcome)
      returns (r: Result<Token>, calls: seq<Call>, saved: Option<Outcome>)
      requires Valid()
      modifies tcm
      ensures Valid()
      ensures Decode(hashText).Err? ==>
        r == Err(Decode(hashText).error) && calls == [] && saved == None
        && tcm.tokens == old(tcm.tokens) && tcm.chains == old(tcm.chains)
      ensures Decode(hashText).Ok? && Decode(hashText).value in old(tcm.tokens) ==>
        r == Ok(old(tcm.tokens)[Decode(hashText).value]) && calls == []
      ensures r.Ok? ==>
        && Decode(hashText).Ok? && r.value.hash == Decode(hashText).value
        && r.value.hash in tcm.tokens && tcm.tokens[r.value.hash] == r.value && saved == Some(write)
      ensures r.Ok? ==> tcm.tokens == old(tcm.tokens)[r.value.hash := r.value]
      ensures r.Err? ==> saved == None && tcm.tokens == old(tcm.tokens)
      ensures Decode(hashText).Ok? ==>
        var hash := Decode(hashText).value;
        tcm.chains == if hash !in old(tcm.tokens) && resp.blockAccount.Ok?
                         && resp.blockAccount.value !in old(tcm.chains) && resp.chain.load.Pass?
                      then old(tcm.chains)[resp.blockAccount.value := Chain(resp.blockAccount.value)]
                      else old(tcm.chains)
    {
      var hash := Decode(hashText);
      if hash.Err? {
        return Err(hash.error), [], None;
      }
      r, calls := tcm.FetchToken(hash.value, resp);
      saved := None;
      if r.Ok? {
        var stored, w := tcm.Save(write);
        saved := Some(w);
      }
    }

    /** The transfer dialog of the selected token: the amount is read at the token's decimals,
        the account's key is checked, and transferToken runs. */
    method Transfer(to: Address, amountText: string, derived: Result<Address>, resp: TransferResponses)
      returns (r: Result<Hash>, calls: seq<Call>)
      requires Valid() && transferEnabled
      ensures AmountFromString(amountText, selected.value.decimals).Err? ==>
        r == Err(UnableToParseAmount) && calls == []
      ensures AmountFromString(amountText, selected.value.decimals).Ok? && CheckAddress(address, derived).Err? ==>
        r == Err(CheckAddress(address, derived).error) && calls == []
      ensures AmountFromString(amountText, selected.value.decimals).Ok? && CheckAddress(address, derived).Ok? ==>
        (r, calls) == TransferToken(selected.value, address, to,
                                    AmountFromString(amountText, selected.value.decimals).value, resp)
      ensures r.Ok? ==>
        && AmountFromString(amountText, selected.value.decimals).Ok? && derived == Ok(address)
        && resp.transfer == Ok(r.value)
    {
      var token := selected.value;
      var amount := AmountFromString(amountText, token.decimals);
      if amount.Err? {
        return Err(amount.error), [];
      }
      var account := CheckAddress(address, derived);
      if account.Err? {
        return Err(account.error), [];
      }
      var result := TransferToken(token, account.value, to, amount.value, resp);
      r, calls := result.0, result.1;
    }
  }
}
