/** The account pane of the main window (account_list.go): the balance text of each row, the
    buttons that follow the open wallet and the selected account, the selection after an
    account is removed, the accounts a confirmation refreshes, and the signing actions, each
    guarded by re-deriving the account's address. */
module AccountView {
  import opened Common
  import opened Hex
  import opened AccountDirectory
  import opened WalletSlots

  /** The text of the pending part of a row: shown only for a known, positive amount. */
  function PendingSuffix(pending: Option<nat>, show: nat -> string): (s: string)
    ensures s != "" ==> pending.Some? && pending.value > 0
    ensures pending.Some? && pending.value > 0 ==>
      |s| == 5 + |show(pending.value)| && s[..4] == " (+ " && s[|s| - 1] == ')'
      && s[4..|s| - 1] == show(pending.value)
  {
    if pending.Some? && pending.value > 0 then " (+ " + show(pending.value) + ")" else ""
  }

  /** The balance column of an account row; `show` is the library's text of a raw amount. An
      unknown balance contributes no text at all, so it is never shown as a zero. */
  function BalanceLabel(balance: Option<nat>, pending: Option<nat>, show: nat -> string): (text: string)
    ensures balance.None? ==> text == PendingSuffix(pending, show)
    ensures balance.Some? ==>
      |text| >= |show(balance.value)| && text[..|show(balance.value)|] == show(balance.value)
      && text[|show(balance.value)|..] == PendingSuffix(pending, show)
    ensures balance.None? && !(pending.Some? && pending.value > 0) ==> text == ""
  {
    (if balance.Some? then show(balance.value) else "") + PendingSuffix(pending, show)
  }

  /** The enabled buttons of the pane. */
  datatype Buttons = Buttons(add: bool, remove: bool, send: bool, receive: bool,
                             receiveAll: bool, changeRep: bool, tokens: bool)

  /** The buttons the pane shows: adding and receiving-all need an open wallet (receiving-all
      also an account in it); the per-account actions need a selected account. */
  function ButtonsFor(wi: Option<WalletInfo>, selected: Option<AccountInfo>): (b: Buttons)
    reads if wi.Some? then {wi.value} else {}
    ensures b.add == wi.Some? && b.receiveAll == (wi.Some? && wi.value.accountsList != [])
    ensures b.remove == b.send == b.receive == b.changeRep == b.tokens == selected.Some?
  {
    var sel := selected.Some?;
    Buttons(wi.Some?, sel, sel, sel, wi.Some? && wi.value.accountsList != [], sel, sel)
  }

  type BlockHash = seq<Byte>

  /** The signing actions the pane asks the wallet library and the node for. */
  datatype Action =
    | SendFunds(to: Address, amount: nat)
    | BuildSendBlock(to: Address, amount: nat)
    | PostBlock(url: string)
    | ReceivePendings(account: Address)
    | ReceiveAllPendings
    | ChangeRepresentative(account: Address, rep: Address)

  /** What the library answers a send: the hash of a published send, or, for a payment URL, the
      hash of the built block and the outcome of posting it. */
  datatype SendResponses = SendResponses(sent: Result<BlockHash>, built: Result<BlockHash>, posted: Outcome)

  /** The derivation keeps the indices distinct: a new address comes with an index that no known
      account has. */
  ghost predicate FreshIndices(derived: seq<Result<Derived>>, accounts: map<Address, AccountInfo>) {
    forall k, a ::
      (0 <= k < |derived| && derived[k].Ok? && derived[k].value.address !in accounts && a in accounts)
      ==> accounts[a].index != derived[k].value.index
  }

  /** The first position of `order` whose account does not re-derive to its own address, or
      |order| when all do. */
  function FirstMismatch(order: seq<Address>, index: map<Address, nat>, derive: nat -> Result<Address>): (k: nat)
    requires forall a :: a in order ==> a in index
    ensures k <= |order|
    ensures forall j :: 0 <= j < k ==> derive(index[order[j]]) == Ok(order[j])
    ensures k < |order| ==> derive(index[order[k]]) != Ok(order[k])
  {
    if order == [] then 0
    else if derive(index[order[0]]) != Ok(order[0]) then 0
    else 1 + FirstMismatch(order[1..], index, derive)
  }

  /** accountList: the wallet list, the open wallet (nil when none), the selected account and
      the buttons. */
  class AccountList {
    const wl: WalletList
    var wi: Option<WalletInfo>
    var selected: Option<AccountInfo>
    var buttons: Buttons

    /** The open wallet is unlocked with distinct indices, and the selection is one of its
        accounts. */
    ghost predicate Ready()
      reads this, wl, if wi.Some? then {wi.value} else {}
    {
      && wl.Valid()
      && (wi.Some? ==> wi.value.Valid() && wi.value.unlocked && DistinctIndices(wi.value.accountsList))
    }

    /** Ready, the selection belongs to the open wallet, and the buttons follow both. */
    ghost predicate Valid()
      reads this, wl, if wi.Some? then {wi.value} else {}
    {
      && Ready()
      && (selected.Some? ==> wi.Some? && selected.value in wi.value.accountsList)
      && buttons == ButtonsFor(wi, selected)
    }

    /** A new pane starts with no wallet open. */
    constructor (wl: WalletList)
      requires wl.Valid()
      ensures Valid() && this.wl == wl && wi == None && selected == None
    {
      this.wl := wl;
      wi := None;
      selected := None;
      buttons := ButtonsFor(None, None);
    }

    /** setAccount: select an account of the open wallet, or clear the selection. */
    method SetAccount(ai: Option<AccountInfo>)
      requires Ready() && (ai.Some? ==> wi.Some? && ai.value in wi.value.accountsList)
      modifies this
      ensures Valid() && selected == ai && wi == old(wi)
    {
      selected := ai;
      buttons := ButtonsFor(wi, ai);
    }

    /** The list's selection handler: selecting row k selects the account listed there. */
    method SelectRow(k: nat)
      requires Ready() && wi.Some? && k < |wi.value.accountsList|
      modifies this
      ensures wi == old(wi) && wi.Some? && k < |wi.value.accountsList|
      ensures Valid() && selected == Some(wi.value.accountsList[k])
    {
      SetAccount(Some(wi.value.accountsList[k]));
    }

    /** The selection after the account at position i was removed from the open wallet's list:
        none when the list is empty, the row before when i is past the end (the list's Select),
        and otherwise the account now at i. */
    method SelectAfterRemoval(i: nat)
      requires Ready() && wi.Some? && i <= |wi.value.accountsList|
      modifies this
      ensures wi == old(wi) && Valid()
      ensures var list := wi.value.accountsList;
        selected == if list == [] then None else if i == |list| then Some(list[i - 1]) else Some(list[i])
    {
      var n := |wi.value.accountsList|;
      if n == 0 {
        SetAccount(None);
      } else if n == i {
        SelectRow(i - 1);
      } else {
        SetAccount(Some(wi.value.accountsList[i]));
      }
    }

    /** setWallet: open a wallet, or close the open one with None; the selection is cleared. */
    method SetWallet(w: Option<WalletInfo>)
      requires wl.Valid()
      requires w.Some? ==> w.value.Valid() && w.value.unlocked && DistinctIndices(w.value.accountsList)
      modifies this
      ensures Valid() && wi == w && selected == None
      ensures buttons.receiveAll <==> w.Some? && w.value.accountsList != []
    {
      wi := w;
      SetAccount(None);
    }

    /** addAccount: nothing without an open wallet. Otherwise the wallet derives a new account;
        when that succeeds the wallet's configuration slot is rewritten with it. `tries` is how
        many derivations were used (none without a wallet). */
    method AddAccount(derived: seq<Result<Derived>>, query: Result<AccountBalance>, write: Outcome)
      returns (r: Outcome, tries: nat)
      requires Valid()
      requires wi.Some? ==> (exists k :: 0 <= k < |derived| && Stops(derived[k], wi.value.accounts))
                            && FreshIndices(derived, wi.value.accounts)
      modifies this, wl, if wi.Some? then {wi.value} else {}
      ensures Valid() && wi == old(wi) && selected == old(selected)
      ensures wi.Some? ==> wi.value.name == old(wi.value.name)
      ensures wl.wallets == old(wl.wallets)
      ensures wi.None? ==> r == Pass && tries == 0 && unchanged(wl)
      ensures wi.Some? ==>
        && 1 <= tries <= |derived| && Stops(derived[tries - 1], old(wi.value.accounts))
        && forall k :: 0 <= k < tries - 1 ==> !Stops(derived[k], old(wi.value.accounts))
      ensures wi.Some? && derived[tries - 1].Err? ==>
        var w := wi.value;
        && r == Fail(derived[tries - 1].error)
        && w.accounts == old(w.accounts) && w.accountsList == old(w.accountsList) && wl.config == old(wl.config)
      ensures wi.Some? && derived[tries - 1].Ok? ==>
        var w, d := wi.value, derived[tries - 1].value;
        && d.address in w.accounts
        && var ai := w.accounts[d.address];
        && fresh(ai) && ai.index == d.index
        && w.accounts == old(w.accounts)[d.address := ai]
        && w.accountsList == Insert(old(w.accountsList), LowerBound(old(w.accountsList), d.index), ai)
        && ai.balance == (if query.Ok? then Some(query.value.balance) else None)
        && ai.pending == (if query.Ok? then Some(query.value.pending) else None)
        && (w in wl.wallets ==>
              r == write && wl.config == old(wl.config)[PositionOf(wl.wallets, w) := Record(Snapshot(w))])
        && (w !in wl.wallets ==> r == Pass && wl.config == old(wl.config))
    {
      if wi.None? {
        return Pass, 0;
      }
      r, tries := AddAndSave(wl, wi.value, selected, derived, query, write);
      buttons := ButtonsFor(wi, selected);
    }

    /** removeAccount: nothing without an open wallet and a selected account. Otherwise the
        selected account is removed; the account that followed it is selected in its place, or
        the one before it when it was the last, or nothing when none is left; and the wallet's
        configuration slot is rewritten. */
    method RemoveAccount(write: Outcome) returns (r: Outcome)
      requires Valid()
      modifies this, wl, if wi.Some? then {wi.value} else {}
      ensures Valid() && wi == old(wi) && wl.wallets == old(wl.wallets)
      ensures wi.Some? ==> wi.value.name == old(wi.value.name)
      ensures wi.None? || old(selected).None? ==> r == Pass && selected == old(selected) && unchanged(wl)
      ensures wi.Some? && old(selected).None? ==> unchanged(wi.value)
      ensures wi.Some? && old(selected).Some? ==>
        var w, ai := wi.value, old(selected).value;
        var before := old(wi.value.accountsList);
        var p := LowerBound(before, ai.index);
        && p < |before| && before[p] == ai
        && w.accounts == old(w.accounts) - {ai.address}
        && w.accountsList == RemoveAt(before, p)
        && (|before| == 1 ==> selected == None)
        && (|before| > 1 && p < |before| - 1 ==> selected == Some(before[p + 1]))
        && (|before| > 1 && p == |before| - 1 ==> selected == Some(before[p - 1]))
        && (w in wl.wallets ==> r == write
                                && wl.config == old(wl.config)[PositionOf(wl.wallets, w) := Record(Snapshot(w))])
        && (w !in wl.wallets ==> r == Pass && wl.config == old(wl.config))
    {
      if wi.None? || selected.None? {
        return Pass;
      }
      var w, ai := wi.value, selected.value;
      ghost var before := w.accountsList;
      var i;
      r, i := RemoveAndSave(wl, w, ai, write);
      SelectAfterRemoval(i);
      if i < |w.accountsList| {
        assert w.accountsList[i] == before[i + 1];
      }
    }

    /** The confirmation handler: with a wallet open, the block's owner is refreshed, and the
        block's counterparty too when it is an account of the open wallet. Returns the
        addresses whose balances are refreshed, in order. */
    method Confirmation(block: Block) returns (refreshed: seq<Address>)
      ensures wi.None? ==> refreshed == []
      ensures wi.Some? ==> |refreshed| >= 1 && refreshed[0] == block.account
      ensures |refreshed| <= 2
      ensures |refreshed| == 2 <==> wi.Some? && block.linkAsAccount in wi.value.accounts
      ensures |refreshed| == 2 ==> refreshed[1] == block.linkAsAccount
    {
      refreshed := [];
      if wi.Some? {
        refreshed := [block.account];
        if block.linkAsAccount in wi.value.accounts {
          refreshed := refreshed + [block.linkAsAccount];
        }
      }
    }

    /** send: the amount must parse, and the selected account must re-derive to its address;
        then the funds are sent, or, with a payment URL, the block is built and posted there. */
    method Send(to: Address, amount: Result<nat>, paymentURL: string, derive: nat -> Result<Address>,
                resp: SendResponses)
      returns (r: Result<BlockHash>, actions: seq<Action>)
      requires Valid() && selected.Some?
      ensures actions != [] ==> amount.Ok? && derive(selected.value.index) == Ok(selected.value.address)
      ensures amount.Err? ==> r == Err(amount.error) && actions == []
      ensures amount.Ok? && derive(selected.value.index) != Ok(selected.value.address) ==>
        r == Err(CheckAddress(selected.value.address, derive(selected.value.index)).error) && actions == []
      ensures amount.Ok? && derive(selected.value.index) == Ok(selected.value.address) ==>
        if paymentURL == "" then
          r == resp.sent && actions == [SendFunds(to, amount.value)]
        else
          && |actions| >= 1 && actions[0] == BuildSendBlock(to, amount.value)
          && (resp.built.Err? ==> r == resp.built && actions == [BuildSendBlock(to, amount.value)])
          && (resp.built.Ok? ==> actions == [BuildSendBlock(to, amount.value), PostBlock(paymentURL)]
                                 && r == if resp.posted.Fail? then Err(resp.posted.error) else resp.built)
    {
      actions := [];
      if amount.Err? {
        return Err(amount.error), [];
      }
      var account := CheckAddress(selected.value.address, derive(selected.value.index));
      if account.Err? {
        return Err(account.error), [];
      }
      if paymentURL == "" {
        return resp.sent, [SendFunds(to, amount.value)];
      }
      actions := [BuildSendBlock(to, amount.value)];
      if resp.built.Err? {
        return resp.built, actions;
      }
      actions := actions + [PostBlock(paymentURL)];
      r := if resp.posted.Fail? then Err(resp.posted.error) else resp.built;
    }

    /** receive: the selected account must re-derive to its address before its pending amounts
        are received. */
    method Receive(derive: nat -> Result<Address>, received: Outcome) returns (r: Outcome, actions: seq<Action>)
      requires Valid() && selected.Some?
      ensures actions != [] <==> derive(selected.value.index) == Ok(selected.value.address)
      ensures actions != [] ==> actions == [ReceivePendings(selected.value.address)] && r == received
      ensures actions == [] ==> r == Fail(CheckAddress(selected.value.address, derive(selected.value.index)).error)
    {
      var account := CheckAddress(selected.value.address, derive(selected.value.index));
      if account.Err? {
        return Fail(account.error), [];
      }
      return received, [ReceivePendings(account.value)];
    }

    /** changeRep: the selected account must re-derive to its address before the change block
        is made. */
    method ChangeRep(rep: Address, derive: nat -> Result<Address>, changed: Result<BlockHash>)
      returns (r: Result<BlockHash>, actions: seq<Action>)
      requires Valid() && selected.Some?
      ensures actions != [] <==> derive(selected.value.index) == Ok(selected.value.address)
      ensures actions != [] ==> actions == [ChangeRepresentative(selected.value.address, rep)] && r == changed
      ensures actions == [] ==> r == Err(CheckAddress(selected.value.address, derive(selected.value.index)).error)
    {
      var account := CheckAddress(selected.value.address, derive(selected.value.index));
      if account.Err? {
        return Err(account.error), [];
      }
      return changed, [ChangeRepresentative(account.value, rep)];
    }

    /** receiveAll: every account of the open wallet, visited in the map's iteration `order`,
        must re-derive to its address; the first one that does not stops the action before
        anything is received. */
    method ReceiveAll(order: seq<Address>, derive: nat -> Result<Address>, received: Outcome)
      returns (r: Outcome, actions: seq<Action>)
      requires Valid() && wi.Some?
      requires forall a :: a in order <==> a in wi.value.accounts
      ensures actions != [] <==>
        forall a :: a in wi.value.accounts ==> derive(wi.value.accounts[a].index) == Ok(a)
      ensures actions != [] ==> actions == [ReceiveAllPendings] && r == received
      ensures actions == [] ==>
        var index := IndexMap(wi.value.accounts);
        var k := FirstMismatch(order, index, derive);
        k < |order| && r == Fail(CheckAddress(order[k], derive(index[order[k]])).error)
    {
      var accounts := wi.value.accounts;
      var index := IndexMap(accounts);
      var i := 0;
      while i < |order|
        invariant 0 <= i <= |order|
        invariant forall j :: 0 <= j < i ==> derive(index[order[j]]) == Ok(order[j])
      {
        var a := order[i];
        var account := CheckAddress(a, derive(index[a]));
        if account.Err? {
          assert FirstMismatch(order, index, derive) == i by {
            FirstMismatchAt(order, index, derive, i);
          }
          return Fail(account.error), [];
        }
        i := i + 1;
      }
      forall a | a in accounts
        ensures derive(accounts[a].index) == Ok(a)
      {
        var j :| 0 <= j < |order| && order[j] == a;
      }
      return received, [ReceiveAllPendings];
    }
  }

  /** The wallet side of adding an account: the wallet derives a new account and, when that
      succeeds, its configuration slot is rewritten. `tries` is how many derivations were
      used. Records already listed (such as the selected one) stay listed. */
  method AddAndSave(wl: WalletList, w: WalletInfo, selected: Option<AccountInfo>,
                    derived: seq<Result<Derived>>, query: Result<AccountBalance>, write: Outcome)
    returns (r: Outcome, tries: nat)
    requires wl.Valid() && w.Valid() && w.unlocked && DistinctIndices(w.accountsList)
    requires exists k :: 0 <= k < |derived| && Stops(derived[k], w.accounts)
    requires FreshIndices(derived, w.accounts)
    modifies wl, w
    ensures wl.Valid() && wl.wallets == old(wl.wallets)
    ensures w.name == old(w.name)
    ensures w.Valid() && w.unlocked && DistinctIndices(w.accountsList)
    ensures selected.Some? && selected.value in old(w.accountsList) ==> selected.value in w.accountsList
    ensures 1 <= tries <= |derived| && Stops(derived[tries - 1], old(w.accounts))
    ensures forall k :: 0 <= k < tries - 1 ==> !Stops(derived[k], old(w.accounts))
    ensures derived[tries - 1].Err? ==>
      && r == Fail(derived[tries - 1].error)
      && w.accounts == old(w.accounts) && w.accountsList == old(w.accountsList) && wl.config == old(wl.config)
    ensures derived[tries - 1].Ok? ==>
      var d := derived[tries - 1].value;
      && d.address in w.accounts
      && var ai := w.accounts[d.address];
      && fresh(ai) && ai.index == d.index
      && w.accounts == old(w.accounts)[d.address := ai]
      && w.accountsList == Insert(old(w.accountsList), LowerBound(old(w.accountsList), d.index), ai)
      && ai.balance == (if query.Ok? then Some(query.value.balance) else None)
      && ai.pending == (if query.Ok? then Some(query.value.pending) else None)
      && (w in wl.wallets ==>
            r == write && wl.config == old(wl.config)[PositionOf(wl.wallets, w) := Record(Snapshot(w))])
      && (w !in wl.wallets ==> r == Pass && wl.config == old(wl.config))
  {
    ghost var accounts0, list0 := w.accounts, w.accountsList;
    r, tries := w.AddAccount(derived, query);
    if r.Fail? {
      return;
    }
    ghost var d := derived[tries - 1].value;
    assert d.address !in accounts0;
    assert forall a :: a in accounts0 ==> accounts0[a].index != d.index;
    assert DistinctIndices(w.accountsList);
    if selected.Some? && selected.value in list0 {
      InsertKeeps(list0, LowerBound(list0, d.index), w.accounts[d.address], selected.value);
    }
    r := wl.SaveWallet(w, write);
  }

  /** The wallet side of removing an account: the record leaves the wallet and the wallet's
      configuration slot is rewritten. */
  method RemoveAndSave(wl: WalletList, w: WalletInfo, ai: AccountInfo, write: Outcome)
    returns (r: Outcome, p: nat)
    requires wl.Valid() && w.Valid() && w.unlocked && DistinctIndices(w.accountsList)
    requires ai in w.accountsList
    modifies wl, w
    ensures wl.Valid() && wl.wallets == old(wl.wallets)
    ensures w.name == old(w.name)
    ensures w.Valid() && w.unlocked && DistinctIndices(w.accountsList)
    ensures p == LowerBound(old(w.accountsList), ai.index)
    ensures p < |old(w.accountsList)| && old(w.accountsList)[p] == ai
    ensures w.accounts == old(w.accounts) - {ai.address}
    ensures w.accountsList == RemoveAt(old(w.accountsList), p)
    ensures w in wl.wallets ==>
      r == write && wl.config == old(wl.config)[PositionOf(wl.wallets, w) := Record(Snapshot(w))]
    ensures w !in wl.wallets ==> r == Pass && wl.config == old(wl.config)
  {
    p := w.RemoveAccount(ai);
    r := wl.SaveWallet(w, write);
  }

  /** Inserting into a list keeps every record already in it. */
  lemma InsertKeeps(l: seq<AccountInfo>, p: nat, x: AccountInfo, y: AccountInfo)
    requires p <= |l| && y in l
    ensures y in Insert(l, p, x)
  {
    var q :| 0 <= q < |l| && l[q] == y;
    if q < p {
      assert Insert(l, p, x)[q] == y;
    } else {
      assert Insert(l, p, x)[q + 1] == y;
    }
  }

  /** A position before which every account matches and at which one does not is the first
      mismatch. */
  lemma FirstMismatchAt(order: seq<Address>, index: map<Address, nat>,
                         derive: nat -> Result<Address>, i: nat)
    requires forall a :: a in order ==> a in index
    requires i < |order| && derive(index[order[i]]) != Ok(order[i])
    requires forall j :: 0 <= j < i ==> derive(index[order[j]]) == Ok(order[j])
    ensures FirstMismatch(order, index, derive) == i
  {
  }
}
