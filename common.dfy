/** Shared vocabulary of the wallet model: optional values, error values and the
    shape of a confirmed ledger block as the push feed delivers it. */
module Common {

  /** A value that may be missing; a Go nil pointer (for instance an unknown balance) is None. */
  datatype Option<T> = None | Some(value: T)

  /** The error kinds that the wallet reports. Errors raised by libraries, the network or the
      configuration store are not interpreted by the wallet and are carried as External. */
  datatype Error =
    | UnableToParseAmount
    | NameEmpty
    | InvalidDecimals
    | DecimalsOutOfRange
    | SupplyTooBig
    | AddressMismatch
    | PasswordsDontMatch
    | SeedLength
    | InvalidHex
    | OddHexLength
    | External(what: string)

  /** A Go `(value, err)` pair: exactly one of the two is meaningful. */
  datatype Result<T> = Ok(value: T) | Err(error: Error)

  /** A Go function that returns only `err`. */
  datatype Outcome = Pass | Fail(error: Error)

  /** Ledger account addresses are the textual `nano_...` form. */
  type Address = string

  /** The part of a confirmed block that the wallet looks at: its owner and, for sends and
      receives, the counterparty account. */
  datatype Block = Block(account: Address, linkAsAccount: Address)

  /** The guard before every signing action: the account the wallet derives at the stored index
      must carry the address the account record shows, or the action stops with an address
      mismatch. An error from the derivation itself is passed on. */
  function CheckAddress(expected: Address, derived: Result<Address>): (r: Result<Address>)
    ensures r.Ok? <==> derived.Ok? && derived.value == expected
    ensures r.Ok? ==> r.value == expected
    ensures derived.Err? ==> r == derived
    ensures derived.Ok? && derived.value != expected ==> r == Err(AddressMismatch)
  {
    if derived.Err? then derived
    else if derived.value != expected then Err(AddressMismatch)
    else Ok(expected)
  }
}
