/** The wallet list of wallet_list.go and its persistence in the configuration. Wallets live
    in numbered slots of the configuration's "wallets" table; a slot left behind by a removal
    holds the empty string. */
module WalletSlots {
  import opened Common
  import opened Hex
  import opened Decimal
  import opened AccountDirectory
  import opened Mnemonic

  /** What the configuration holds for one wallet: its exported fields, and each account's
      derivation index under its address. */
  datatype WalletRecord = WalletRecord(
    name: string, seed: string, salt: string, isBip39: bool, isLedger: bool,
    accounts: map<Address, nat>)

  /** One numbered slot: a wallet, or a string (the "" a removal writes). */
  datatype Slot = Text(text: string) | Record(wallet: WalletRecord)

  /** The "wallets" table, by slot number. */
  type Config = map<int, Slot>

  /** The record a wallet is saved as. */
  function Snapshot(wi: WalletInfo): (w: WalletRecord)
    reads wi
    ensures w.name == wi.name && w.accounts.Keys == wi.accounts.Keys
  {
    WalletRecord(wi.name, wi.seed, wi.salt, wi.isBip39, wi.isLedger, IndexMap(wi.accounts))
  }

  /** What initWallets reads for slot i: the record there, or all-empty fields when the slot
      holds a string or is missing. */
  function RecordAt(config: Config, i: int): WalletRecord {
    if i in config && config[i].Record? then config[i].wallet
    else WalletRecord("", "", "", false, false, map[])
  }

  predicate HoldsText(config: Config, i: int) {
    i in config && config[i].Text?
  }

  /** initWallets' count: n is 0 or one more than the greatest slot below the table's size
      that does not hold a string. */
  predicate CountsWallets(config: Config, n: nat) {
    && n <= |config|
    && (n > 0 ==> !HoldsText(config, n - 1))
    && (forall j :: n <= j < |config| ==> HoldsText(config, j))
  }

  /** The count is determined by the table. */
  lemma CountUnique(config: Config, n: nat, m: nat)
    requires CountsWallets(config, n) && CountsWallets(config, m)
    ensures n == m
  {
  }

  /** The table as the program itself leaves it: slots 0 .. |config|-1, wallets in the first n,
      strings after them. */
  ghost predicate Shape(config: Config, n: nat) {
    && (forall k :: k in config <==> 0 <= k < |config|)
    && n <= |config|
    && (forall k :: 0 <= k < n ==> config[k].Record?)
    && (forall k :: n <= k < |config| ==> config[k].Text?)
  }

  /** Reading back a table of that shape counts exactly its n wallets. */
  lemma ShapeCounts(config: Config, n: nat)
    requires Shape(config, n)
    ensures CountsWallets(config, n)
  {
  }

  /** Pointer-distinct wallets. */
  predicate Distinct(ws: seq<WalletInfo>) {
    forall i, j :: 0 <= i < j < |ws| ==> ws[i] != ws[j]
  }

  /** The first position of a wallet in the list. */
  function PositionOf(ws: seq<WalletInfo>, wi: WalletInfo): (i: nat)
    requires wi in ws
    ensures i < |ws| && ws[i] == wi && forall j :: 0 <= j < i ==> ws[j] != wi
  {
    if ws[0] == wi then 0 else 1 + PositionOf(ws[1..], wi)
  }

  /** initWallets' downward scan for the last slot that does not hold a string. */
  method CountWallets(config: Config) returns (n: nat)
    ensures CountsWallets(config, n)
  {
    var i := |config| - 1;
    while i >= 0
      invariant -1 <= i < |config|
      invariant forall j :: i < j < |config| ==> HoldsText(config, j)
    {
      if !HoldsText(config, i) {
        return i + 1;
      }
      i := i - 1;
    }
    return 0;
  }

  /** The account records of a stored wallet: one new record per stored address, with its
      stored index and no balance known. */
  method BuildAccounts(stored: map<Address, nat>) returns (accounts: map<Address, AccountInfo>)
    ensures KeysMatch(accounts) && IndexMap(accounts) == stored
    ensures forall a :: a in accounts ==>
      fresh(accounts[a]) && accounts[a].balance == None && accounts[a].pending == None
  {
    accounts := map[];
    var rest := stored.Keys;
    while rest != {}
      invariant rest <= stored.Keys && accounts.Keys == stored.Keys - rest
      invariant KeysMatch(accounts)
      invariant forall a :: a in accounts ==> accounts[a].index == stored[a]
      invariant forall a :: a in accounts ==>
        fresh(accounts[a]) && accounts[a].balance == None && accounts[a].pending == None
      decreases rest
    {
      var a :| a in rest;
      var ai := new AccountInfo(a, stored[a]);
      accounts := accounts[a := ai];
      rest := rest - {a};
    }
  }

  /** A locked wallet built from a stored record. */
  method BuildWallet(w: WalletRecord) returns (wi: WalletInfo)
    ensures fresh(wi) && wi.Valid() && !wi.unlocked && wi.accountsList == []
    ensures Snapshot(wi) == w
    ensures forall a :: a in wi.accounts ==>
      fresh(wi.accounts[a]) && wi.accounts[a].balance == None && wi.accounts[a].pending == None
  {
    var accounts := BuildAccounts(w.accounts);
    wi := new WalletInfo(w.name, w.seed, w.salt, w.isBip39, w.isLedger, accounts);
  }

  /** initWallets' second loop: one locked wallet per counted slot, built from that slot. */
  method BuildWallets(config: Config, n: nat) returns (built: seq<WalletInfo>)
    ensures |built| == n && Distinct(built)
    ensures forall j :: 0 <= j < n ==>
      fresh(built[j]) && built[j].Valid() && !built[j].unlocked
      && Snapshot(built[j]) == RecordAt(config, j)
  {
    built := [];
    for i := 0 to n
      invariant |built| == i && Distinct(built)
      invariant forall j :: 0 <= j < i ==>
        fresh(built[j]) && built[j].Valid() && !built[j].unlocked
        && Snapshot(built[j]) == RecordAt(config, j)
    {
      var wi := BuildWallet(RecordAt(config, i));
      built := built + [wi];
    }
  }

  /** removeWallet's rewrite of the table once the wallet at `i` has been spliced out of `ws`:
      every slot from i on holds the wallet now at that position, and the slot after the last
      wallet holds "". */
  method ShiftSlots(config: Config, ws: seq<WalletInfo>, i: nat) returns (c: Config)
    requires i <= |ws| && forall k :: i <= k <= |ws| ==> k in config
    ensures c.Keys == config.Keys
    ensures forall k :: k in c ==>
      c[k] == if i <= k < |ws| then Record(Snapshot(ws[k]))
              else if k == |ws| then Text("")
              else config[k]
  {
    c := config;
    var k := i;
    while k < |ws|
      invariant i <= k <= |ws| && c.Keys == config.Keys
      invariant forall s :: s in c ==> c[s] == if i <= s < k then Record(Snapshot(ws[s])) else config[s]
    {
      c := c[k := Record(Snapshot(ws[k]))];
      k := k + 1;
    }
    c := c[k := Text("")];
  }

  /** The rewritten table has the shape of a list one wallet shorter. */
  lemma ShiftKeepsShape(config: Config, c: Config, n: nat, i: nat)
    requires Shape(config, n + 1) && i <= n && c.Keys == config.Keys
    requires forall k :: k in c ==>
      && (i <= k < n ==> c[k].Record?)
      && (k == n ==> c[k].Text?)
      && (k < i || k > n ==> c[k] == config[k])
    ensures Shape(c, n)
  {
    assert |c| == |c.Keys| == |config.Keys| == |config|;
  }

  /** The library steps of creating a wallet. */
  datatype Step =
    | DeriveKey
    | Encrypt(data: seq<Byte>)
    | NewEntropy
    | NewMnemonic(entropy: seq<Byte>)
    | EntropyFromMnemonic(mnemonic: string)
    | OpenWallet(path: UnlockPath)
    | ScanAccounts
    | WriteConfig

  /** deriveKey's result: the key and the random salt it was derived with. */
  datatype KeyAndSalt = KeyAndSalt(key: seq<Byte>, salt: seq<Byte>)

  /** The answers while a new wallet is opened, scanned and saved: the open call, the account
      scan and the accounts it found, the balance query, and the configuration write. */
  datatype EnrolResponses = EnrolResponses(
    open: Outcome, scan: Outcome, scanned: seq<Derived>,
    balances: Result<map<Address, AccountBalance>>, write: Outcome)

  datatype SeedResponses = SeedResponses(
    key: Result<KeyAndSalt>, encrypted: Result<seq<Byte>>, enrol: EnrolResponses)

  datatype Bip39Responses = Bip39Responses(
    key: Result<KeyAndSalt>, entropy: Result<seq<Byte>>, mnemonic: Result<string>,
    fromMnemonic: Result<seq<Byte>>, encrypted: Result<seq<Byte>>, enrol: EnrolResponses)

  /** The node reports balances only for addresses it was asked about. */
  predicate BalancesCover(e: EnrolResponses) {
    e.balances.Ok? ==> e.balances.value.Keys <= ScannedAddresses(e.scanned)
  }

  /** Opening, scanning and the balance query all succeed (a wallet with no accounts asks for
      no balances). */
  predicate EnrolSucceeds(e: EnrolResponses) {
    e.open.Pass? && e.scan.Pass? && (e.balances.Ok? || e.scanned == [])
  }

  /** The entropy a BIP39 wallet is made from: fresh entropy (and its mnemonic, to show) when
      no mnemonic was typed, otherwise the typed mnemonic's. */
  function Bip39Entropy(mnemonic: string, resp: Bip39Responses): Result<seq<Byte>> {
    if mnemonic == "" then
      if resp.entropy.Err? then Err(resp.entropy.error)
      else if resp.mnemonic.Err? then Err(resp.mnemonic.error)
      else Ok(resp.entropy.value)
    else resp.fromMnemonic
  }

  /** A label numbered after the wallets already listed, as in "Ledger Wallet #3". */
  function NumberedLabel(prefix: string, count: nat): (text: string)
    ensures |text| > |prefix| && text[..|prefix|] == prefix
    ensures AllDigits(text[|prefix|..]) && Value(text[|prefix|..]) == count + 1
  {
    ValueOfToDecimal(count + 1);
    assert (prefix + ToDecimal(count + 1))[|prefix|..] == ToDecimal(count + 1);
    prefix + ToDecimal(count + 1)
  }

  /** Opening a new wallet with the library (initSeed, initBip39 or initLedger) and scanning
      for its accounts (initAccounts). It passes exactly when the open, the scan and the
      balance query succeed. */
  method OpenAndScan(wi: WalletInfo, path: UnlockPath, e: EnrolResponses)
    returns (r: Outcome, steps: seq<Step>)
    requires BalancesCover(e)
    requires wi.Valid() && !wi.unlocked && wi.accounts == map[] && wi.accountsList == []
    modifies wi
    ensures wi.Valid() && wi.name == old(wi.name)
    ensures r.Pass? <==> EnrolSucceeds(e)
    ensures e.open.Fail? ==> r == e.open && steps == [OpenWallet(path)]
    ensures e.open.Pass? ==> wi.unlocked && steps == [OpenWallet(path), ScanAccounts]
    ensures e.open.Pass? && e.scan.Fail? ==> r == e.scan
    ensures r.Pass? ==> IndexMap(wi.accounts) == Merged(map[], e.scanned)
  {
    steps := [OpenWallet(path)];
    r := wi.Open(e.open);
    if r.Fail? {
      return;
    }
    steps := steps + [ScanAccounts];
    assert IndexMap(wi.accounts) == map[];
    r := wi.InitAccounts(e.scan, e.scanned, e.balances);
    if e.scan.Pass? {
      ScanListsAccounts(wi, e.scanned);
    }
  }

  /** After a scan of a wallet with no accounts, the account list is empty exactly when the
      scan found nothing. */
  lemma ScanListsAccounts(wi: WalletInfo, scanned: seq<Derived>)
    requires wi.Valid() && wi.unlocked
    requires IndexMap(wi.accounts) == Merged(map[], scanned)
    ensures wi.accountsList == [] <==> scanned == []
  {
    if scanned != [] {
      var d := scanned[0];
      assert d.address in ScannedAddresses(scanned);
      assert d.address in IndexMap(wi.accounts).Keys;
      assert |wi.accountsList| == |wi.accounts| > 0;
    } else {
      assert wi.accounts.Keys == {};
    }
  }

  /** walletList: the open wallets, in list order, and the configuration's wallet table. */
  class WalletList {
    var wallets: seq<WalletInfo>
    var config: Config

    /** The table holds the wallets in its first slots and strings after them. */
    ghost predicate Valid()
      reads this
    {
      Shape(config, |wallets|) && Distinct(wallets)
    }

    constructor (config: Config)
      ensures wallets == [] && this.config == config
    {
      wallets := [];
      this.config := config;
    }

    /** initWallets: count the wallets, then build each one from its slot. A table of the
        program's own shape yields a valid list. */
    method InitWallets()
      requires wallets == []
      modifies this
      ensures config == old(config) && CountsWallets(config, |wallets|) && Distinct(wallets)
      ensures forall i :: 0 <= i < |wallets| ==>
        fresh(wallets[i]) && wallets[i].Valid() && !wallets[i].unlocked
        && Snapshot(wallets[i]) == RecordAt(config, i)
      ensures forall n: nat :: Shape(config, n) ==> Valid()
    {
      var n := CountWallets(config);
      var built := BuildWallets(config, n);
      wallets := built;
      forall n': nat | Shape(config, n')
        ensures Valid()
      {
        ShapeCounts(config, n');
        CountUnique(config, n, n');
      }
    }

    /** saveWallet: write the wallet into the slot of its position in the list, then write the
        configuration file (outcome `write`). A wallet not in the list changes nothing. */
    method SaveWallet(wi: WalletInfo, write: Outcome) returns (r: Outcome)
      requires Valid()
      modifies this
      ensures Valid() && wallets == old(wallets)
      ensures wi in wallets ==>
        r == write && config == old(config)[PositionOf(wallets, wi) := Record(Snapshot(wi))]
      ensures wi !in wallets ==> r == Pass && config == old(config)
    {
      for i := 0 to |wallets|
        invariant forall j :: 0 <= j < i ==> wallets[j] != wi
      {
        if wallets[i] == wi {
          assert PositionOf(wallets, wi) == i;
          config := config[i := Record(Snapshot(wi))];
          assert config.Keys == old(config).Keys;
          return write;
        }
      }
      return Pass;
    }

    /** removeWallet: splice the wallet out of the list, rewrite every slot from its position
        on with the wallet now there, put "" in the slot after the last wallet, and write the
        configuration file. A wallet not in the list changes nothing. */
    method RemoveWallet(wi: WalletInfo, write: Outcome) returns (r: Outcome)
      requires Valid()
      modifies this
      ensures Valid()
      ensures wi !in old(wallets) ==> r == Pass && wallets == old(wallets) && config == old(config)
      ensures wi in old(wallets) ==>
        var i := PositionOf(old(wallets), wi);
        && r == write
        && wallets == old(wallets)[..i] + old(wallets)[i + 1..]
        && config.Keys == old(config).Keys
        && (forall k :: k in config ==>
              config[k] == if i <= k < |wallets| then Record(Snapshot(wallets[k]))
                           else if k == |wallets| then Text("")
                           else old(config)[k])
    {
      var i := 0;
      while i < |wallets| && wallets[i] != wi
        invariant 0 <= i <= |wallets|
        invariant forall j :: 0 <= j < i ==> wallets[j] != wi
      {
        i := i + 1;
      }
      if i == |wallets| {
        return Pass;
      }
      assert PositionOf(wallets, wi) == i;
      var n := |wallets| - 1;
      var rest := wallets[..i] + wallets[i + 1..];
      assert forall j :: 0 <= j < n ==> rest[j] == wallets[if j < i then j else j + 1];
      var c := ShiftSlots(config, rest, i);
      ShiftKeepsShape(config, c, n, i);
      wallets, config := rest, c;
      r := write;
    }

    /** New wallets are appended to the list and saved into the slot after the last wallet. */
    method Append(wi: WalletInfo, write: Outcome) returns (r: Outcome)
      requires Valid() && wi !in wallets
      modifies this
      ensures Valid() && r == write
      ensures wallets == old(wallets) + [wi]
      ensures config == old(config)[|old(wallets)| := Record(Snapshot(wi))]
    {
      var n := |wallets|;
      wallets := wallets + [wi];
      assert PositionOf(wallets, wi) == n;
      config := config[n := Record(Snapshot(wi))];
      if n == |old(config)| {
        assert forall k :: k in config <==> 0 <= k < |config|;
      } else {
        assert config.Keys == old(config).Keys;
      }
      r := write;
    }

    /** The rename dialog: set the label, then save the wallet. */
    method Rename(wi: WalletInfo, newName: string, write: Outcome) returns (r: Outcome)
      requires Valid()
      modifies this, wi
      ensures Valid() && wallets == old(wallets) && wi.name == newName
      ensures wi.accounts == old(wi.accounts) && wi.accountsList == old(wi.accountsList)
      ensures wi.unlocked == old(wi.unlocked)
      ensures wi in wallets ==>
        r == write && config == old(config)[PositionOf(wallets, wi) := Record(Snapshot(wi))]
      ensures wi !in wallets ==> r == Pass && config == old(config)
    {
      wi.name := newName;
      r := SaveWallet(wi, write);
    }

    /** The tail shared by every new wallet: open and scan it, then append and save it. The
        wallet is added exactly when the open, the scan and the balance query succeed. */
    method Enrol(wi: WalletInfo, path: UnlockPath, e: EnrolResponses)
      returns (r: Outcome, steps: seq<Step>, added: bool)
      requires Valid() && wi !in wallets && BalancesCover(e)
      requires wi.Valid() && !wi.unlocked && wi.accounts == map[] && wi.accountsList == []
      modifies this, wi
      ensures Valid() && wi.name == old(wi.name)
      ensures added <==> EnrolSucceeds(e)
      ensures e.open.Fail? ==> r == e.open && steps == [OpenWallet(path)]
      ensures e.open.Pass? && e.scan.Fail? ==> r == e.scan && steps == [OpenWallet(path), ScanAccounts]
      ensures !added ==> r.Fail? && wallets == old(wallets) && config == old(config)
      ensures added ==>
        && r == e.write && wi.unlocked
        && steps == [OpenWallet(path), ScanAccounts, WriteConfig]
        && IndexMap(wi.accounts) == Merged(map[], e.scanned)
        && wallets == old(wallets) + [wi]
        && config == old(config)[|old(wallets)| := Record(Snapshot(wi))]
    {
      r, steps := OpenAndScan(wi, path, e);
      if r.Fail? {
        return r, steps, false;
      }
      r := Append(wi, e.write);
      steps := steps + [WriteConfig];
      added := true;
    }

    /** The seed dialog's confirmation and newSeedWallet: the two passwords must match and the
        seed must be 64 characters before any key is derived; the seed is then hex-decoded and
        encrypted under the derived key, and the wallet stores the salt and the encrypted seed
        as lower-case hex. */
    method NewSeedWallet(name: string, seed: string, password: string, confirm: string,
                         resp: SeedResponses)
      returns (r: Outcome, steps: seq<Step>, created: Option<WalletInfo>)
      requires Valid() && BalancesCover(resp.enrol)
      modifies this
      ensures Valid()
      ensures password != confirm ==> r == Fail(PasswordsDontMatch) && steps == [] && created.None?
      ensures password == confirm && |seed| != 64 ==> r == Fail(SeedLength) && steps == [] && created.None?
      ensures password == confirm && |seed| == 64 && resp.key.Err? ==>
        r == Fail(resp.key.error) && steps == [DeriveKey] && created.None?
      ensures password == confirm && |seed| == 64 && resp.key.Ok? && Decode(seed).Err? ==>
        r == Fail(InvalidHex) && steps == [DeriveKey] && created.None?
      ensures password == confirm && |seed| == 64 && resp.key.Ok? && Decode(seed).Ok? ==>
        |steps| >= 2 && steps[..2] == [DeriveKey, Encrypt(Decode(seed).value)]
      ensures password == confirm && |seed| == 64 && resp.key.Ok? && Decode(seed).Ok? && resp.encrypted.Err? ==>
        r == Fail(resp.encrypted.error) && |steps| == 2 && created.None?
      ensures created.Some? <==>
        password == confirm && |seed| == 64 && resp.key.Ok? && Decode(seed).Ok? && resp.encrypted.Ok?
        && EnrolSucceeds(resp.enrol)
      ensures created.None? ==> r.Fail? && wallets == old(wallets) && config == old(config)
      ensures created.Some? ==>
        && resp.key.Ok? && Decode(seed).Ok? && resp.encrypted.Ok?
        && var wi := created.value;
        && fresh(wi) && wi.unlocked && wi.name == name && !wi.isBip39 && !wi.isLedger
        && wi.salt == Encode(resp.key.value.salt, false)
        && wi.seed == Encode(resp.encrypted.value, false)
        && steps == [DeriveKey, Encrypt(Decode(seed).value), OpenWallet(Seed), ScanAccounts, WriteConfig]
        && r == resp.enrol.write
        && wallets == old(wallets) + [wi]
        && config == old(config)[|old(wallets)| := Record(Snapshot(wi))]
    {
      if password != confirm {
        return Fail(PasswordsDontMatch), [], None;
      }
      if |seed| != 64 {
        return Fail(SeedLength), [], None;
      }
      steps := [DeriveKey];
      if resp.key.Err? {
        return Fail(resp.key.error), steps, None;
      }
      var salt := Encode(resp.key.value.salt, false);
      var raw := Decode(seed);
      if raw.Err? {
        return Fail(raw.error), steps, None;
      }
      steps := steps + [Encrypt(raw.value)];
      if resp.encrypted.Err? {
        return Fail(resp.encrypted.error), steps, None;
      }
      var wi := new WalletInfo(name, Encode(resp.encrypted.value, false), salt, false, false, map[]);
      var more, added;
      r, more, added := Enrol(wi, Seed, resp.enrol);
      steps := steps + more;
      created := if added then Some(wi) else None;
    }

    /** The BIP39 dialog's confirmation and newBip39Wallet: the passwords must match; after the
        key is derived, an empty mnemonic means fresh entropy whose mnemonic is shown, first
        twelve words and the rest on the next line; otherwise the typed mnemonic gives the
        entropy. The entropy is encrypted and the wallet marked BIP39. */
    method NewBip39Wallet(name: string, mnemonic: string, password: string, confirm: string,
                          resp: Bip39Responses)
      returns (r: Outcome, steps: seq<Step>, shown: Option<string>, created: Option<WalletInfo>)
      requires Valid() && BalancesCover(resp.enrol)
      requires mnemonic == "" && resp.mnemonic.Ok? ==> |Split(resp.mnemonic.value)| >= 12
      modifies this
      ensures Valid()
      ensures password != confirm ==>
        r == Fail(PasswordsDontMatch) && steps == [] && shown.None? && created.None?
      ensures password == confirm && resp.key.Err? ==>
        r == Fail(resp.key.error) && steps == [DeriveKey] && shown.None? && created.None?
      ensures password == confirm && resp.key.Ok? ==>
        |steps| >= 2 && steps[0] == DeriveKey
        && steps[1] == (if mnemonic == "" then NewEntropy else EntropyFromMnemonic(mnemonic))
      ensures shown.Some? <==>
        password == confirm && resp.key.Ok? && mnemonic == "" && resp.entropy.Ok? && resp.mnemonic.Ok?
      ensures shown.Some? ==> resp.mnemonic.Ok? && shown.value == SecretWordsText(resp.mnemonic.value)
      ensures password == confirm && resp.key.Ok? && Bip39Entropy(mnemonic, resp).Err? ==>
        r == Fail(Bip39Entropy(mnemonic, resp).error) && created.None?
      ensures password == confirm && resp.key.Ok? && Bip39Entropy(mnemonic, resp).Ok? ==>
        Encrypt(Bip39Entropy(mnemonic, resp).value) in steps
      ensures created.Some? <==>
        password == confirm && resp.key.Ok? && Bip39Entropy(mnemonic, resp).Ok? && resp.encrypted.Ok?
        && EnrolSucceeds(resp.enrol)
      ensures created.None? ==> r.Fail? && wallets == old(wallets) && config == old(config)
      ensures created.Some? ==>
        && resp.key.Ok? && resp.encrypted.Ok?
        && var wi := created.value;
        && fresh(wi) && wi.unlocked && wi.name == name && wi.isBip39 && !wi.isLedger
        && wi.salt == Encode(resp.key.value.salt, false)
        && wi.seed == Encode(resp.encrypted.value, false)
        && steps[|steps| - 3..] == [OpenWallet(Bip39), ScanAccounts, WriteConfig]
        && r == resp.enrol.write
        && wallets == old(wallets) + [wi]
        && config == old(config)[|old(wallets)| := Record(Snapshot(wi))]
    {
      shown := None;
      if password != confirm {
        return Fail(PasswordsDontMatch), [], None, None;
      }
      steps := [DeriveKey];
      if resp.key.Err? {
        return Fail(resp.key.error), steps, None, None;
      }
      var salt := Encode(resp.key.value.salt, false);
      var entropy: seq<Byte>;
      if mnemonic == "" {
        steps := steps + [NewEntropy];
        if resp.entropy.Err? {
          return Fail(resp.entropy.error), steps, None, None;
        }
        steps := steps + [NewMnemonic(resp.entropy.value)];
        if resp.mnemonic.Err? {
          return Fail(resp.mnemonic.error), steps, None, None;
        }
        shown := Some(SecretWordsText(resp.mnemonic.value));
        entropy := resp.entropy.value;
      } else {
        steps := steps + [EntropyFromMnemonic(mnemonic)];
        if resp.fromMnemonic.Err? {
          return Fail(resp.fromMnemonic.error), steps, None, None;
        }
        entropy := resp.fromMnemonic.value;
      }
      steps := steps + [Encrypt(entropy)];
      assert Encrypt(entropy) in steps;
      if resp.encrypted.Err? {
        return Fail(resp.encrypted.error), steps, shown, None;
      }
      var wi := new WalletInfo(name, Encode(resp.encrypted.value, false), salt, true, false, map[]);
      var more, added;
      ghost var before := steps;
      r, more, added := Enrol(wi, Bip39, resp.enrol);
      steps := steps + more;
      assert Encrypt(entropy) in steps by { assert steps[|before| - 1] == Encrypt(entropy); }
      created := if added then Some(wi) else None;
    }

    /** newLedgerWallet: a Ledger wallet numbered after the wallets already listed, with no seed
        or salt, opened on the device, scanned, appended and saved. */
    method NewLedgerWallet(e: EnrolResponses) returns (r: Outcome, steps: seq<Step>, created: Option<WalletInfo>)
      requires Valid() && BalancesCover(e)
      modifies this
      ensures Valid()
      ensures created.Some? <==> EnrolSucceeds(e)
      ensures created.None? ==> r.Fail? && wallets == old(wallets) && config == old(config)
      ensures created.Some? ==>
        var wi := created.value;
        && fresh(wi) && wi.unlocked && wi.isLedger && !wi.isBip39 && wi.seed == "" && wi.salt == ""
        && wi.name == NumberedLabel("Ledger Wallet #", |old(wallets)|)
        && steps == [OpenWallet(Ledger), ScanAccounts, WriteConfig]
        && r == e.write
        && wallets == old(wallets) + [wi]
        && config == old(config)[|old(wallets)| := Record(Snapshot(wi))]
    {
      var wi := new WalletInfo(NumberedLabel("Ledger Wallet #", |wallets|), "", "", false, true, map[]);
      var added;
      r, steps, added := Enrol(wi, Ledger, e);
      created := if added then Some(wi) else None;
    }
  }
}
