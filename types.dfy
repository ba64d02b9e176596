/** The values the dice contract stores and exchanges: accounts, assets,
    bets, commitment-registry entries, the fund pool, outbound effects, the
    reasons an invocation is rejected, and the host capabilities (hashing,
    key recovery, text parsing) that the contract calls but does not define. */
module Types {

  datatype Option<+T> = None | Some(value: T)

  /** The outcome of a step that may abort the invocation. */
  datatype Result<+T> = Ok(value: T) | Err(error: Error) {
    predicate IsFailure() { Err? }

    function PropagateFailure<U>(): Result<U>
      requires Err?
    {
      Err(error)
    }

    function Extract(): T
      requires Ok?
    {
      value
    }
  }

  newtype u64 = x: int | 0 <= x < 0x1_0000_0000_0000_0000

  /** An account name is a 64-bit word on this ledger. */
  type Name = u64

  /** A 256-bit digest, kept opaque: only equality is ever used. */
  type Checksum = seq<bv8>

  datatype Symbol = Symbol(precision: nat, code: string)

  /** The only currency the contract accepts: EOS with four decimals. */
  const EOS_SYMBOL := Symbol(4, "EOS")

  /** The largest magnitude an asset amount may have (2^62 - 1). */
  const MAX_AMOUNT: int := 0x3FFF_FFFF_FFFF_FFFF

  /** The smallest accepted deposit, 0.1000 EOS in units of 10^-4 EOS. */
  const MIN_DEPOSIT: int := 1000

  datatype Asset = Asset(amount: int, symbol: Symbol)

  /** An open wager. */
  datatype Bet = Bet(
    id: nat,
    player: Name,
    referrer: Name,
    amount: Asset,
    rollUnder: nat,
    seedHash: Checksum,
    createdAt: nat)
  {
    /** What admission guarantees of every bet it stores. */
    predicate WellFormed() {
      && 2 <= rollUnder <= 96
      && referrer != player
      && amount.symbol == EOS_SYMBOL
      && amount.amount >= MIN_DEPOSIT
    }
  }

  /** A commitment-registry entry; its key is the 64-bit hash of `hash`. */
  datatype HashEntry = HashEntry(hash: Checksum, expiration: nat)

  /** The escrow record: how much of the balance is reserved for open bets. */
  datatype FundPool = FundPool(locked: Asset)

  /** The identifier counter record. */
  datatype Global = Global(currentId: nat)

  /** The public record of one settlement. */
  datatype BetResult = BetResult(
    betId: nat,
    player: Name,
    referrer: Name,
    amount: Asset,
    rollUnder: nat,
    randomRoll: nat,
    seed: Checksum,
    seedHash: Checksum,
    payout: Asset)

  /** An outbound action, queued for the host to run once the invocation commits. */
  datatype Effect =
    | Transfer(from: Name, to: Name, quantity: Asset, memo: string)
    | Receipt(bet: Bet)
    | LogResult(logger: Name, result: BetResult)

  /** Why an invocation aborts. */
  datatype Error =
    | MissingAuthority     // the reveal was not authorised by the revealer account
    | NotEosSymbol         // "quantity must be EOS symbol"
    | InvalidQuantity      // "quantity invalid"
    | DepositTooSmall      // "quantity must be greater than 0.1"
    | MissingSeparator     // a required '-' separator is absent from the memo
    | NoSignature          // "no signature"
    | Unparsable           // a memo field is not a number, a digest or a name
    | RollUnderOutOfRange  // "roll_under overflow, ..."
    | OfferedOverflow      // "offered overflow, expected earning is greater than the maximum bonus"
    | NoSeed               // "no seed"
    | HashDuplicate        // "hash duplicate"
    | SeedHashExpired      // "seed hash expired"
    | BadSignature         // key recovery did not yield the trusted key
    | ReferrerIsPlayer     // "referrer can not be self"
    | BetNotFound          // "bet not found"
    | InvalidSeed          // the seed does not hash to the committed digest
    | FundPoolOverdraw     // "fund pool overdraw"
    | FundUnlockError      // "fund unlock error"

  /** The capabilities the host platform and the helper headers supply. */
  datatype Host = Host(
    uint64Hash: Checksum -> u64,
    sha256: string -> Checksum,
    sha256ToHex: Checksum -> string,
    recoversTrustedKey: (Checksum, string) -> bool,
    stoi: string -> Option<int>,
    stoull: string -> Option<nat>,
    hexToSha256: string -> Option<Checksum>,
    stringToName: string -> Name)

  /** The seed check of a reveal: the hex text of the seed hashes to the commitment. */
  predicate SeedMatches(host: Host, seed: Checksum, commitment: Checksum) {
    host.sha256(host.sha256ToHex(seed)) == commitment
  }

  /** The text a C string holds: everything before the first NUL character. */
  function CString(s: string): (r: string)
    ensures |r| <= |s| && r == s[..|r|] && '\0' !in r
    ensures |r| < |s| ==> s[|r|] == '\0'
    ensures '\0' !in s ==> r == s
  {
    if s == [] || s[0] == '\0' then []
    else
      var tail := CString(s[1..]);
      assert [s[0]] + tail == s[..|tail| + 1];
      [s[0]] + tail
  }

  /** The signature check of an offer: the signature recovers the trusted
      public key from the digest of the signed text, read as a C string. */
  predicate SignatureValid(host: Host, signedText: string, signature: string) {
    host.recoversTrustedKey(host.sha256(CString(signedText)), signature)
  }

  /** `asset::is_valid` for an amount already known to carry the EOS symbol. */
  predicate IsValidQuantity(quantity: Asset) {
    -MAX_AMOUNT <= quantity.amount <= MAX_AMOUNT
  }

  /** An optional parse turned into a step that aborts when parsing failed. */
  function Parsed<T>(o: Option<T>): (r: Result<T>)
    ensures r.Ok? <==> o.Some?
    ensures r.Ok? ==> r.value == o.value
    ensures r.Err? ==> r.error == Unparsable
  {
    match o
    case Some(v) => Ok(v)
    case None => Err(Unparsable)
  }
}
