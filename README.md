# gonano-gui: the wallet's bookkeeping, in Dafny

gonano-gui is a desktop wallet for the Nano cryptocurrency, with support for tokens issued on
token chains. This project models the in-memory bookkeeping behind its windows and proves
properties of that model:

- **Account directory** (`wallet_info.go`). Each open wallet keeps its accounts twice: in a map
  from address to account record, and in `accountsList`, where the same shared records are sorted
  by derivation index. The model covers:
  - `init` and its unlock routines, `initAccounts`, `initAccountsList` and `getBalances`;
  - the lower-bound search `indexOf`;
  - `addAccount`, which derives until it finds a fresh address and inserts at the lower bound;
  - `removeAccount`, which deletes from the map and splices the list.

  The proofs show that the list stays a sorted mirror of the map with distinct indices, and
  that balances are written through the shared records.
- **Token-chain manager** (`tokenchain.go`):
  - the exact fixed-point conversion between raw amounts and decimal text
    (`amountToString`, `amountFromString`), with its round trip;
  - the token list sorted by hash bytes;
  - the memo caches of `fetchChain` and `fetchToken`;
  - the step order of `createToken` and `transferToken`: read the representative, write, restore
    the representative, then cache;
  - `parse`, which stops at the first error, and `save`, which stores every hash once as
    upper-case hex.
- **Subscriber registry** (`websocket.go`):
  - `subscribe` hands out increasing keys;
  - `unsubscribe` splices out the first entry with a key;
  - a confirmation is handed to every subscriber once, in order.
- **Wallet slots** (`wallet_list.go`). The configuration's numbered wallet slots, modelled as a
  map from slot number to slot:
  - `initWallets` counts the wallets and builds them;
  - `saveWallet` writes one slot;
  - `removeWallet` shifts the slots down and writes `""` behind the last wallet.

  Also modelled: the new seed, BIP39 and Ledger wallet flows with their password, seed-length
  and hex checks, and the display of a generated mnemonic in two lines.
- **Token window** (`token_list.go`):
  - the ordered checks of the new-token dialog: name, decimals as a `uint8`, supply at those
    decimals, a 128-bit bound, and the re-derived address;
  - the add-token and transfer dialogs;
  - the token rows and the "Max" text;
  - a transfer button that is enabled exactly while a token is selected.
- **Account pane** (`account_list.go`):
  - the balance label, where an unknown balance is never shown as zero;
  - the buttons;
  - which account is selected after a removal;
  - which addresses a confirmation refreshes;
  - the address-mismatch guards of send, receive, change-representative and receive-all.

External calls are inputs to the model, given as a `Result` or an `Outcome`. This covers RPC
queries, the wallet and token-chain libraries, and the configuration file write. Where the order
of external calls matters, an operation returns the trace of calls it made.

The Go `uint32` derivation index is an unbounded natural number here. Byte values, such as token
decimals and hash bytes, are a `0..255` subset type.

amountFromString accepts more fraction digits than `decimals` whenever the scaled value is whole:

- The code accepts any text whose value times 10^decimals is a whole number. It does not check
  how many fraction digits were typed.
- So extra trailing zeros are accepted: `"1.550"` at 2 decimals reads as 155, exactly like `"1.55"`
  (`Amount.TrailingZeroIgnored`).
- `"1.555"` at 2 decimals is still refused, because 155.5 is not whole.

## Model

| member | source | states |
|---|---|---|
| Common.CheckAddress | token_list.go:108-116 | getAccount's guard: passes exactly when the re-derived address equals the stored one; a derivation error is passed on unchanged, and a different address fails with "Address mismatch" |
| Decimal.ToDecimal | wallet_list.go:341 | the decimal text of a number is a non-empty digit string with no leading zero |
| Decimal.ValueOfToDecimal | wallet_list.go:341 | reading the decimal text of n back as digits gives n |
| Decimal.ValueConcat | tokenchain.go:247 | the value of two digit strings written one after the other is the first shifted left by the second's length plus the second |
| Decimal.ValueOfZeroPad | tokenchain.go:247 | padding a digit string with leading zeros to a width does not change its value |
| Decimal.ToDecimalLength | tokenchain.go:247 | a number below 10^k is written with at most k digits |
| Hex.LexLessIrreflexive | tokenchain.go:47-49 | bytes.Compare ordering: no hash is below itself |
| Hex.LexLessAsymmetric | tokenchain.go:47-49 | bytes.Compare ordering: two hashes are never each below the other |
| Hex.LexLessTransitive | tokenchain.go:47-49 | bytes.Compare ordering is transitive |
| Hex.LexLessTotal | tokenchain.go:47-49 | bytes.Compare ordering: of two different hashes one is below the other, so sorting by it is a total order |
| Hex.Encode | tokenchain.go:237 | hex encoding writes two digits per byte |
| Hex.Decode | token_list.go:182 | hex decoding succeeds exactly when the text has even length and every character is a hex digit of either case, giving one byte per two characters; a non-hex character anywhere is an invalid-byte error, and only all-hex text of odd length is a length error |
| Hex.DecodeEncode | tokenchain.go:237 | decoding the hex text of bytes, upper- or lower-case, gives the bytes back |
| Hex.EncodeInjective | tokenchain.go:234-241 | different hashes have different hex texts, so the saved token list has no repeats |
| Hex.EncodeExample | tokenchain.go:237 | worked instances: bytes 0A FF print as "0AFF" in upper case, and mixed-case "0aFf" decodes to them |
| Amount.PointAt | tokenchain.go:253 | the position of the first decimal point: no point before it, a point at it unless it is the end |
| Amount.ParseDecimal | tokenchain.go:253-256 | an accepted text is exactly an optional sign, a digit run, and optionally a point and a digit run, with at least one digit; the sign decides negativity |
| Amount.ParseLayout | tokenchain.go:253 | conversely every sign, non-empty digit run and optional point-and-digits is accepted and split into exactly those parts |
| Amount.AmountFromString | tokenchain.go:250-262 | a text that is not a number fails with "Unable to parse amount", and that is the only error |
| Amount.AmountFromStringMeaning | tokenchain.go:250-262 | a parsed text succeeds exactly when its rational value times 10^decimals is whole, and then returns that whole number |
| Amount.QuotientMeaning | tokenchain.go:257-261 | an exact integer quotient is the rational scaled value, sign included |
| Amount.IntegralDivides | tokenchain.go:258 | the rational "is an integer" test is the same as exact divisibility of the scaled digits |
| Amount.SameMeaning | tokenchain.go:250-262 | two texts that denote the same scaled value read as the same amount |
| Amount.TrailingZeroIgnored | tokenchain.go:250-262 | appending a zero to the fraction never changes the result: the test is whether the value is whole, not how many digits were typed |
| Amount.FractionText | tokenchain.go:247 | the fraction part is empty at 0 decimals, otherwise a point followed by the zero-padded remainder |
| Amount.AmountToStringFormat | tokenchain.go:243-248 | the printed amount starts with '-' exactly when it is negative; it has no point at 0 decimals and otherwise exactly `decimals` digits after the point |
| Amount.AmountToStringParses | tokenchain.go:243-248 | the printed amount parses as a number with the amount's sign, `decimals` fraction digits, and digits that read together are the amount's magnitude |
| Amount.PrintedText | tokenchain.go:243-248 | the printed amount splits into the whole quotient by 10^decimals and the zero-padded remainder |
| Amount.RoundTrip | tokenchain.go:243-262 | reading back the printed amount at the same decimals returns the amount, for every amount including negative ones and every number of decimals |
| Amount.BitLenBound | token_list.go:147 | a number has at most k bits exactly when it is below 2^k |
| Mnemonic.Split | wallet_list.go:315 | splitting at spaces always yields at least one piece |
| Mnemonic.JoinSplit | wallet_list.go:315-316 | joining the pieces with single spaces gives the text back |
| Mnemonic.JoinAppend | wallet_list.go:316 | joining two word lists puts exactly one space between their joins |
| Mnemonic.SecretWordsBreakLine | wallet_list.go:315-316 | the displayed mnemonic is the generated one with the space after the twelfth word replaced by a line break, and nothing else changed |
| Subscribers.Keys | websocket.go:17-20 | the keys of the subscription list, position by position |
| Subscribers.FirstWith | websocket.go:49-50 | the position of the first entry with a key: no earlier entry has it |
| Subscribers.RemoveFirstSplices | websocket.go:47-56 | unsubscribe splices out exactly the first entry with the key and keeps the others in order; an unknown key changes nothing |
| Subscribers.SpliceKeepsIncreasing | websocket.go:51 | splicing an entry out keeps the keys increasing |
| Subscribers.SpliceDropsKey | websocket.go:51 | with increasing keys, the spliced key no longer occurs |
| Subscribers.UnsubscribeRemovesKey | websocket.go:47-56 | after unsubscribe no entry carries the key, keys still increase, and the list shrinks by one exactly when the key was subscribed |
| Subscribers.RemoveFirstKeepsBound | websocket.go:47-56 | removing an entry keeps every remaining key below the next key to be handed out |
| Subscribers.WsClient.constructor | websocket.go:22 | a new registry has no subscribers and hands out 0 first |
| Subscribers.WsClient.Subscribe | websocket.go:38-45 | the key returned is the counter, the counter advances by one, exactly one entry is appended, and the key is above every existing key |
| Subscribers.WsClient.Unsubscribe | websocket.go:47-56 | the list becomes the old list with the first entry of the key removed; the counter is unchanged and keys stay increasing |
| Subscribers.WsClient.Deliver | websocket.go:61-66 | every subscriber's handler is called once with the block, in list order |
| Subscribers.KeysUnique | websocket.go:38-45 | two subscriptions of a registry never share a key |
| AccountDirectory.AccountInfo.constructor | wallet_info.go:141-144 | a new account record has its address and index and no known balance or pending amount |
| AccountDirectory.LowerBound | wallet_info.go:125-129 | the least position whose index is at least the given one, or the length |
| AccountDirectory.LowerBoundSplits | wallet_info.go:125-129 | on a sorted list everything from the lower bound on has an index at least the given one |
| AccountDirectory.LowerBoundUnique | wallet_info.go:125-129 | any position that splits the list that way is the lower bound |
| AccountDirectory.SearchIndex | wallet_info.go:125-129 | indexOf's binary search on a sorted list returns the lower bound |
| AccountDirectory.LowerBoundFindsMember | wallet_info.go:125-129 | with sorted distinct indices, indexOf of a listed record is its own position |
| AccountDirectory.InsertKeepsSorted | wallet_info.go:146-152 | inserting at the lower bound keeps the list sorted, one longer |
| AccountDirectory.InsertAtLowerBound | wallet_info.go:146-152 | inserting at the lower bound keeps the list sorted and adds exactly the new record as a multiset |
| AccountDirectory.InsertAdds | wallet_info.go:147-152 | a splice-insert adds exactly the inserted record and nothing else |
| AccountDirectory.RemoveAtIndex | wallet_info.go:165 | the splice-delete keeps the records before the position and shifts those after it down by one |
| AccountDirectory.RemoveKeepsOrder | wallet_info.go:165 | the splice-delete keeps the list sorted and indices distinct, and removes exactly one record as a multiset |
| AccountDirectory.ListedIff | wallet_info.go:20-21 | a record is listed exactly when it is an element of the list |
| AccountDirectory.Addresses | wallet_info.go:172-175 | the batched balance query asks for the list's addresses, in list order |
| AccountDirectory.WriteBalances | wallet_info.go:181-184 | every reported address's record takes the reported balance and pending amount, and no other record changes |
| AccountDirectory.PathFor | wallet_info.go:34-51 | init unlocks through the device exactly for a Ledger wallet, through BIP39 exactly for a non-Ledger BIP39 wallet, and through the raw seed otherwise |
| AccountDirectory.IndexMap | wallet_info.go:20-26 | the stored index map has the wallet's addresses as keys and each account's index |
| AccountDirectory.Merged | wallet_info.go:105-110 | after a scan the wallet knows the addresses it knew plus the scanned ones |
| AccountDirectory.MergedStep | wallet_info.go:105-110 | each scanned account overwrites the entry of its address, later scan results over earlier ones |
| AccountDirectory.IndexMapStep | wallet_info.go:106 | storing a record under its address records its index under that address |
| AccountDirectory.FirstStop | wallet_info.go:133-140 | addAccount's loop stops at the first derivation that fails or yields an unknown address, having skipped only known addresses |
| AccountDirectory.RecordScan | wallet_info.go:105-110 | every scanned address gets a new record with its index and no balance; every other record is kept |
| AccountDirectory.CollectStep | wallet_info.go:116-121 | adding one more record of the map at its lower bound keeps the partial list sorted and each record once |
| AccountDirectory.SortedRecords | wallet_info.go:114-121 | the rebuilt list holds every record of the map exactly once and is sorted by index |
| AccountDirectory.InsertKeepsMirror | wallet_info.go:145-152 | recording a new address and inserting its record at the lower bound keeps the list a sorted mirror of the map |
| AccountDirectory.InsertFreshIndex | wallet_info.go:145-152 | a new record whose index no known account has keeps the indices distinct |
| AccountDirectory.InsertKeepsDistinct | wallet_info.go:147-152 | inserting a record with an unused index keeps the indices distinct |
| AccountDirectory.RemoveKeepsMirror | wallet_info.go:162-166 | dropping a listed record from both the map and the list keeps the list a sorted mirror of the map |
| AccountDirectory.RemoveMember | wallet_info.go:162-166 | the record at indexOf is the one removed, and the result is still a sorted mirror with distinct indices |
| AccountDirectory.WalletInfo.constructor | wallet_list.go:93-107 | a wallet built from its stored fields is locked, keeps those fields, and has no account list yet |
| AccountDirectory.WalletInfo.Open | wallet_info.go:72-92 | initSeed, initBip39 and initLedger unlock the wallet exactly when the library call succeeds |
| AccountDirectory.WalletInfo.GetBalances | wallet_info.go:168-185 | nothing is asked for an empty list; otherwise the list's addresses are asked for in order; a failed query changes no balance and a successful one overwrites exactly the reported addresses |
| AccountDirectory.WalletInfo.InitAccountsList | wallet_info.go:114-123 | the list is rebuilt as a sorted mirror of the unchanged map, then the balances are refreshed as getBalances does |
| AccountDirectory.WalletInfo.Init | wallet_info.go:30-54 | nothing happens for an unlocked wallet; otherwise the routine of the wallet's kind runs and, when it succeeds, the list is built and balances fetched, the wallet staying unlocked even if only the balance query failed |
| AccountDirectory.WalletInfo.InitAccounts | wallet_info.go:94-112 | a failed scan changes nothing; otherwise every scanned account replaces its entry with a new record, other records stay, and the list is rebuilt; then a reported address has the reported balance and pending amount, any other scanned address has both unknown, and every other record keeps its amounts |
| AccountDirectory.WalletInfo.RecordAccounts | wallet_info.go:102-110 | the scanned accounts enter the map as new records with unknown amounts, later ones over earlier ones; every other entry keeps its record |
| AccountDirectory.WalletInfo.AddAccount | wallet_info.go:131-160 | derivation is retried only past known addresses; a derivation error changes nothing; otherwise exactly the new address is added to the map, its record is inserted at the lower bound, the list stays a sorted mirror, and a failed balance query still succeeds with the balance unknown |
| AccountDirectory.WalletInfo.RemoveAccount | wallet_info.go:162-166 | the address leaves the map and exactly the record at indexOf leaves the list; the list stays a sorted mirror with distinct indices |
| TokenChains.FailAt | tokenchain.go:60-93 | the position of the first failing step: every earlier step passed |
| TokenChains.Overall | tokenchain.go:60-93 | a sequence of steps succeeds exactly when every step passes |
| TokenChains.CreateOutcomes | tokenchain.go:60-93 | createToken has six steps without a chain and three with one |
| TokenChains.CreatePlanBracketsWrite | tokenchain.go:77-90 | in every prefix of createToken's calls the representative is read before the genesis write, and a complete run ends by restoring that same representative |
| TokenChains.TransferPlanBracketsWrite | tokenchain.go:98-109 | in every prefix of transferToken's calls the representative is read before the transfer, and a complete run ends by restoring it |
| TokenChains.TransferToken | tokenchain.go:95-111 | transferToken stops at the first failing step, returns the transfer's hash exactly when all three steps succeed, reads the representative before writing, and restores it on success |
| TokenChains.InsertByHash | tokenchain.go:47-49 | inserting a token with a new hash keeps the list strictly sorted by hash bytes and adds exactly that token |
| TokenChains.InsertFront | tokenchain.go:47-49 | a token below the head goes in front and keeps the order |
| TokenChains.InsertBehind | tokenchain.go:47-49 | a token above the head goes behind it and keeps the order |
| TokenChains.FirstBadChain | tokenchain.go:159-165 | the position of the first chain that fails to parse or save: every earlier one passes both |
| TokenChains.ParseRunStopsAtFirstError | tokenchain.go:157-169 | parse parses and saves every chain before the first bad one, stops there with its error, and touches no later chain |
| TokenChains.ParseRunPasses | tokenchain.go:157-169 | parse succeeds exactly when every chain parses and saves |
| TokenChains.TokenChainManager.constructor | tokenchain.go:29-33 | a new manager has empty chain and token caches |
| TokenChains.TokenChainManager.GetTokens | tokenchain.go:42-51 | every cached token appears exactly once, sorted by hash bytes |
| TokenChains.TokenChainManager.CreateToken | tokenchain.go:60-93 | createToken stops at the first failing step and fails with its error; a new chain is cached only after it is created, funded and open; the token is cached under its hash only when every step succeeds; the representative is read before the write and restored on success |
| TokenChains.TokenChainManager.FetchChain | tokenchain.go:113-131 | a cached chain is reused without loading; an uncached one is loaded and cached, and stays cached even when parsing or saving it then fails |
| TokenChains.TokenChainManager.FetchToken | tokenchain.go:133-155 | a cached token is returned with no call; otherwise the block, the chain and the token are looked up in order, and the token is cached under its hash only when all succeed |
| TokenChains.TokenChainManager.Parse | tokenchain.go:157-169 | the loop over the chains produces exactly the run that stops at the first parse or save error |
| TokenChains.TokenChainManager.Save | tokenchain.go:234-241 | the stored list holds every cached hash as upper-case hex exactly once, each decoding to a cached hash; the write's outcome is returned |
| WalletSlots.Snapshot | wallet_list.go:114 | the saved record carries the wallet's label and its account addresses |
| WalletSlots.CountUnique | wallet_list.go:82-88 | the wallet count is determined by the table |
| WalletSlots.ShapeCounts | wallet_list.go:82-88 | a table the program itself wrote, wallets then strings, is counted as exactly its wallets |
| WalletSlots.PositionOf | wallet_list.go:112-113 | the first position of a wallet in the list |
| WalletSlots.CountWallets | wallet_list.go:82-88 | the count is one more than the greatest slot below the table's size that does not hold a string, or 0 |
| WalletSlots.BuildAccounts | wallet_list.go:101-107 | one new record per stored address, with its stored index and no balance |
| WalletSlots.BuildWallet | wallet_list.go:93-107 | a locked wallet whose saved record is the stored one |
| WalletSlots.BuildWallets | wallet_list.go:89-108 | one distinct locked wallet per counted slot, built from that slot |
| WalletSlots.ShiftSlots | wallet_list.go:172-175 | every slot from the removed position on holds the wallet now at that position, the slot after the last wallet holds "", and no other slot changes |
| WalletSlots.ShiftKeepsShape | wallet_list.go:172-175 | the rewritten table is counted as one wallet fewer when read back |
| WalletSlots.NumberedLabel | wallet_list.go:341 | the default label is the prefix followed by the decimal text of the number of wallets plus one |
| WalletSlots.OpenAndScan | wallet_list.go:253-258 | a new wallet is opened, then scanned; it passes exactly when the open, the scan and the balance query succeed, and then holds exactly the scanned accounts |
| WalletSlots.ScanListsAccounts | wallet_info.go:105-111 | after a scan of a new wallet the account list is empty exactly when the scan found nothing |
| WalletSlots.WalletList.constructor | wallet_list.go:29-68 | a new list is empty over the given table |
| WalletSlots.WalletList.InitWallets | wallet_list.go:81-109 | the count is as CountWallets says, each wallet is a distinct locked wallet built from its slot, and a table of the program's own shape gives a consistent list |
| WalletSlots.WalletList.SaveWallet | wallet_list.go:111-120 | only the slot at the wallet's position is rewritten, followed by the file write; a wallet not in the list changes nothing |
| WalletSlots.WalletList.RemoveWallet | wallet_list.go:166-181 | the first occurrence of the wallet is spliced out keeping the others' order, the slots are shifted down with "" behind the last wallet, and the table stays consistent; a wallet not in the list changes nothing |
| WalletSlots.WalletList.Append | wallet_list.go:259-261 | a new wallet goes at the end of the list and into the slot after the last wallet |
| WalletSlots.WalletList.Rename | wallet_list.go:155-162 | the label changes while the accounts, the list and the unlocked flag stay, and the wallet's own slot is rewritten |
| WalletSlots.WalletList.Enrol | wallet_list.go:253-261 | a new wallet is added at the end and saved exactly when its open, scan and balance query succeed; otherwise the list and the table are unchanged |
| WalletSlots.WalletList.NewSeedWallet | wallet_list.go:216-262 | mismatched passwords and a seed that is not 64 characters are refused before any key is derived; the seed must be hex; the wallet stores the salt and encrypted seed as hex and is appended only when every step succeeds |
| WalletSlots.WalletList.NewBip39Wallet | wallet_list.go:281-337 | mismatched passwords are refused before any key is derived; an empty mnemonic means fresh entropy whose mnemonic is shown in two lines; otherwise the typed mnemonic's entropy is used; the wallet is BIP39 and is appended only when every step succeeds |
| WalletSlots.WalletList.NewLedgerWallet | wallet_list.go:339-353 | the Ledger wallet is numbered after the wallets already listed, has no seed or salt, and is appended only when open, scan and balance query succeed |
| TokenDialogs.ParseUint8 | token_list.go:137-141 | decimals are accepted exactly when they are one or more decimal digits with a value below 256; a leading digit run worth 256 or more is a range error even when a non-digit follows it, and otherwise a non-digit or the empty text is a syntax error |
| TokenDialogs.ScanMeaning | token_list.go:137 | the left-to-right scan of strconv.ParseUint decides by the leading digit run: a range error when it is worth 256 or more, else a syntax error when a character follows it, else its value |
| TokenDialogs.ParseUint8ToDecimal | token_list.go:137 | every byte value written in decimal is accepted as itself |
| TokenDialogs.CheckSupply | token_list.go:142-150 | an unparsable supply fails with the parse error; a parsed one is accepted exactly when it fits in 128 bits, otherwise "Supply is too big" |
| TokenDialogs.CheckNewToken | token_list.go:131-155 | the request passes exactly when the name is non-empty, the decimals fit a byte, the supply checks pass at those decimals and the account re-derives to its address; the first failing check is the error reported |
| TokenDialogs.TokenRow | token_list.go:53-55 | a row shows the hash as hex that decodes back to it, the name, and a balance text that reads back as the balance |
| TokenDialogs.MaxText | token_list.go:208-210 | the Max button's text reads back at the token's decimals as exactly the balance |
| TokenDialogs.TokenList.constructor | token_list.go:71-73 | a new window has no token selected and transfers disabled |
| TokenDialogs.TokenList.SetToken | token_list.go:99-106 | the selection becomes the token, and the transfer button is enabled exactly while a token is selected |
| TokenDialogs.TokenList.Select | token_list.go:71 | selecting row id selects the cached token with exactly id cached hashes below it, the id-th in hash order |
| TokenChains.RankInSorted | tokenchain.go:42-51 | in the sorted list of all cached tokens, the token at position id has exactly id cached hashes below it |
| TokenDialogs.TokenList.NewToken | token_list.go:131-170 | createToken runs only after every check passes, on a new chain; a failing check makes no call; a created token is added to the token cache with every other entry kept, and then saved; the chain cache gains the new chain exactly when it was created, funded and opened |
| TokenDialogs.TokenList.AddToken | token_list.go:173-202 | invalid hex is refused with no call; a cached token is returned with no call; a fetched token is added to the token cache under the typed hash with every other entry kept, and then saved; the chain cache gains the token's chain exactly when it was not cached and loads |
| TokenDialogs.TokenList.Transfer | token_list.go:220-243 | the amount is parsed at the token's decimals and the account's address checked before transferToken runs; a transfer succeeds only when both pass |
| AccountView.PendingSuffix | account_list.go:62-64 | the pending suffix " (+ amount)" appears exactly when the pending amount is known and positive |
| AccountView.BalanceLabel | account_list.go:58-64 | an unknown balance contributes no text, so it is never shown as zero; a known balance is shown followed by the pending suffix |
| AccountView.ButtonsFor | account_list.go:159-207 | adding needs an open wallet, receive-all an open wallet with accounts, and the per-account buttons a selected account |
| AccountView.FirstMismatch | account_list.go:368-376 | the first account, in visiting order, that does not re-derive to its address: every earlier one does |
| AccountView.FirstMismatchAt | account_list.go:368-376 | a position where every earlier account matches and this one does not is the first mismatch |
| AccountView.InsertKeeps | wallet_info.go:147-152 | inserting a record keeps every record already listed, such as the selected one |
| AccountView.AccountList.constructor | account_list.go:125-127 | the pane starts with no wallet and no selection |
| AccountView.AccountList.SetAccount | account_list.go:192-207 | the selection becomes the account, and the per-account buttons are enabled exactly while an account is selected |
| AccountView.AccountList.SelectRow | account_list.go:125 | selecting a row selects the account listed there |
| AccountView.AccountList.SelectAfterRemoval | account_list.go:234-242 | after a removal at position i: no selection for an empty list, the previous row when i is the new length, and otherwise the account now at i |
| AccountView.AccountList.SetWallet | account_list.go:159-190 | the wallet becomes the open one, and receive-all is enabled exactly when it has accounts |
| AccountView.AccountList.AddAccount | account_list.go:209-224 | nothing happens without an open wallet; otherwise derivation is retried only past known addresses; a derivation error changes nothing; a new address enters the map as a new record inserted into the list at the lower bound of its index, with the queried amounts or unknown ones, the wallet's label stays, and the wallet's slot is rewritten with the write outcome returned |
| AccountView.AccountList.RemoveAccount | account_list.go:226-245 | nothing happens without an open wallet and a selection; otherwise the selected account is removed, the following account is selected, or the previous one when it was last, or none when the list is empty; the wallet's label stays, and the wallet's slot is rewritten |
| AccountView.AccountList.Confirmation | account_list.go:128-147 | nothing is refreshed without an open wallet; otherwise the block's account is, and the link target too exactly when it is an account of the open wallet |
| AccountView.AccountList.Send | account_list.go:281-321 | nothing is sent unless the amount parses and the selected account re-derives to its address; then funds are sent, or with a payment URL the block is built and posted |
| AccountView.AccountList.Receive | account_list.go:352-365 | pending amounts are received exactly when the selected account re-derives to its address |
| AccountView.AccountList.ChangeRep | account_list.go:407-424 | the representative is changed exactly when the selected account re-derives to its address |
| AccountView.AccountList.ReceiveAll | account_list.go:367-382 | anything is received only when every account of the wallet re-derives to its address; otherwise the first mismatch's error is reported and nothing is received |
| AccountView.AddAndSave | account_list.go:213-223 | the wallet adds exactly the first new derived address, as a record in the map and at the lower bound of its index in the list, the other records staying, and then its slot is rewritten with its label unchanged; a derivation error changes nothing; a selected account stays listed |
| AccountView.RemoveAndSave | account_list.go:230-244 | the record at indexOf leaves the map and the list, the label stays, and the wallet's slot is rewritten |

## Left out

- crypt.go is not part of this model. It wraps scrypt and AES-GCM from libraries that are not visible, so key derivation, encryption and `decryptSeed` are inputs.
- main.go and context_menu.go are not part of this model. They hold GUI start-up, theme toggling, the RPC endpoint probe and widget glue.
- Network calls are inputs:
  - RPC queries, the wallet and token-chain libraries, the HTTP POST to a payment URL, and `sendToPaymentURL`'s status handling;
  - the configuration file write (viper) and sqlite through `withDB`.
- websocket.go's `init` and the reconnect-and-sleep branch of `loop` are left out. Only the subscriber list and the fan-out are modelled.
- Concurrency is left out: the mutexes, goroutines and tickers. Each operation is one sequential step. This includes:
  - the periodic `parse`;
  - the balance refresh that `setWallet` starts in a goroutine;
  - the deferred second refresh of a confirmation;
  - the token window's periodic refresh.
- `load`, `loadChains` and `getBalance` (tokenchain.go:53-58, 186-232) are left out. They only read the database and the library.
- `updateBalance` is not defined in the visible files. Confirmation returns the addresses it would refresh instead.
- `show` in AccountView.BalanceLabel, the library's text of a raw amount, is a parameter.
- `util.NanoAmountFromString` in AccountView.AccountList.Send is an input amount result.
- Amount.ParseDecimal: only plain decimal text is modelled: an optional sign, digits, and an optional point and digits. `big.Rat.SetString` also accepts fractions such as "1/3", exponents, base prefixes and digit-separator underscores such as "1_000", and those are not modelled.
- Amount.AmountToString: the model prints the exact quotient and remainder rather than going through `big.Rat.FloatString`. The denominator divides 10^decimals, so FloatString's rounding never applies.
- Derivation indices are unbounded. The Go `uint32` truncation in initWallets (wallet_list.go:105) is not modelled.
- Subscriber keys are unbounded. The Go `int` counter cannot wrap in the model.
- String lengths are counted in characters, not in Go's UTF-8 bytes, for example in the 64-character seed check.
- AccountDirectory.WalletInfo.AddAccount requires that some derivation result ends the loop. The Go loop would otherwise never end, and the model has no non-terminating case.
- AccountDirectory.WalletInfo.RemoveAccount requires distinct derivation indices. Without them `indexOf` may point at another record with the same index. AccountDirectory.WalletInfo.AddAccount keeps the indices distinct when the new index is unused. The model does not prove that the HD wallet never reuses an index.
- AccountView.AccountList.AddAccount and AccountView.AddAndSave require FreshIndices: no new address the wallet derives carries an index already in use. That is the same assumption that the HD wallet never reuses an index, and the model does not prove it.
- AccountDirectory.WalletInfo.GetBalances requires that the node reports only addresses it was asked for. The Go loop would dereference a nil record for any other address.
- AccountDirectory.WalletInfo.Init: the panic of `initSeed`, `initBip39` and `initLedger` on a library error (they dereference the nil wallet) is modelled as a plain failure.
- AccountDirectory.SortedRecords: `sort.Slice` is replaced by inserting each record at its lower bound. The result holds the same records and is sorted by index. With distinct indices that order is the only one.
- WalletSlots.WalletList.InitWallets: the configuration is read as one snapshot, and Go's `viper` string-keyed lookups are a map from slot number to slot. Slots not numbered 0 .. size-1 are read as empty.
- WalletSlots.WalletList: its invariant asks that the slot table has the shape the program itself writes (slots numbered 0 .. size-1, wallets in the first n of them and strings after), and SaveWallet, RemoveWallet, Append, Rename, Enrol and the New*Wallet methods require it. A hand-edited table such as `{0: wallet, 1: "", 2: wallet}`, which initWallets reads as three wallets with an empty one in slot 1, is not covered by these methods, although the Go code accepts it.
- Hex.Decode: encoding/hex's `InvalidByteError` carries the offending byte; the model's InvalidHex does not.
- WalletSlots.WalletList.NewBip39Wallet requires a generated mnemonic of at least twelve words, as the library's 24-word mnemonic has. The Go slice `words[:12]` would panic on a shorter one.
- WalletSlots.WalletList.NewSeedWallet and WalletSlots.WalletList.NewBip39Wallet take the password check of the dialog callbacks (wallet_list.go:218-221, 283-286) as their first step.
- AccountView.AccountList.SetWallet: the password prompt of `setWallet` (wallet_list.go:122-145) is left out. The account pane's `setWallet` is given an already unlocked wallet.
- AccountView.AccountList.SetWallet always clears the selection. fyne's `Unselect(0)` only clears a selection of row 0, and the model does not track the widget's own selection.
- AccountView.AccountList.ReceiveAll: the order in which the Go map is visited is a parameter.
- AccountView.AccountList.Send: `SendBlock` and `Hash` are one library step, whose answer is the block hash.
- TokenChains.TokenChainManager.CreateToken: tokens are identified by their genesis hash, name and decimals. The library's token object, with its supply and balance ledger, is not modelled.
- TokenChains.TokenChainManager.FetchChain: chains are identified by their address. `NewChain`, `LoadChain` and the chain state are inputs.
