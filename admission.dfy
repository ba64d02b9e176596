/** The check phase of an offer: every condition a deposit must meet before
    anything is written, in the order the contract checks them, ending in
    the bet to store and the expiration of its commitment. */
module Admission {
  import opened Types
  import opened Arithmetic
  import opened Memo
  import opened Tables

  /** A bet that passed every check, and when its commitment expires. */
  datatype Admission = Admission(bet: Bet, expiration: nat)

  /** The conversion of an int to an 8-bit unsigned value: reduction modulo 256. */
  function ToUint8(n: int): (b: nat)
    ensures b < 256 && (n - b) % 256 == 0
    ensures 0 <= n < 256 ==> b == n
  {
    n % 256
  }

  /** The referrer the memo names, or the contract itself when the referrer
      field is absent or empty. */
  function ResolveReferrer(host: Host, account: Name, fields: MemoFields): (referrer: Name)
    ensures fields.referrer.Some? && fields.referrer.value != [] ==>
      referrer == host.stringToName(fields.referrer.value)
    ensures fields.referrer.None? || fields.referrer.value == [] ==> referrer == account
  {
    match fields.referrer
    case Some(text) => if text != [] then host.stringToName(text) else account
    case None => account
  }

  /** The memo's fields, read after removing its whitespace. */
  function MemoOf(memo: string): Result<MemoFields> {
    ParseMemo(RemoveSpaces(memo))
  }

  /** The roll threshold field: parsed as an int, cast to 8 bits, and
      required to lie in [2, 96]. */
  function ReadRollUnder(host: Host, text: string): (r: Result<nat>)
    ensures r.Ok? <==> host.stoi(text).Some? && 2 <= ToUint8(host.stoi(text).value) <= 96
    ensures r.Ok? ==> r.value == ToUint8(host.stoi(text).value)
    ensures r.Err? ==> r.error == if host.stoi(text).None? then Unparsable else RollUnderOutOfRange
  {
    var parsed :- Parsed(host.stoi(text));
    var rollUnder := ToUint8(parsed);
    if 2 <= rollUnder <= 96 then Ok(rollUnder) else Err(RollUnderOutOfRange)
  }

  /** The bankroll check: the balance must cover the locked amount, and the
      bet's payout must not exceed the bonus ceiling of what is left. */
  function CheckBonus(rollUnder: nat, amount: int, balance: int, locked: int): (r: Result<()>)
    requires rollUnder >= 2
    ensures r.Ok? <==> locked <= balance && MaxPayout(rollUnder, amount) <= MaxBonus(balance - locked)
    ensures r.Err? ==> r.error == if locked > balance then FundPoolOverdraw else OfferedOverflow
  {
    var available :- AvailableBalance(balance, locked);
    if MaxPayout(rollUnder, amount) > MaxBonus(available) then Err(OfferedOverflow) else Ok(())
  }

  /** The commitment field: present, a digest in hex, and not yet registered. */
  function ReadSeedHash(host: Host, hashes: map<u64, HashEntry>, text: string): (r: Result<Checksum>)
    ensures r.Ok? <==>
      text != [] && host.hexToSha256(text).Some? && host.uint64Hash(host.hexToSha256(text).value) !in hashes
    ensures r.Ok? ==> r.value == host.hexToSha256(text).value
    ensures r.Err? ==>
      r.error == if text == [] then NoSeed else if host.hexToSha256(text).None? then Unparsable else HashDuplicate
  {
    if text == [] then Err(NoSeed)
    else
      var seedHash :- Parsed(host.hexToSha256(text));
      var _ :- AssertHash(host, hashes, seedHash);
      Ok(seedHash)
  }

  /** The expiration field: an unsigned number later than `now`. */
  function ReadExpiration(host: Host, text: string, now: nat): (r: Result<nat>)
    ensures r.Ok? <==> host.stoull(text).Some? && host.stoull(text).value > now
    ensures r.Ok? ==> r.value == host.stoull(text).value
    ensures r.Err? ==> r.error == if host.stoull(text).None? then Unparsable else SeedHashExpired
  {
    var expiration :- Parsed(host.stoull(text));
    if expiration <= now then Err(SeedHashExpired) else Ok(expiration)
  }

  /** Checks the fields read from the whitespace-free memo `text` of an
      acceptable deposit, in the contract's order, and builds the bet to store. */
  function AdmitFields(account: Name, host: Host, bets: map<nat, Bet>, hashes: map<u64, HashEntry>,
                       locked: int, from: Name, quantity: Asset, text: string, fields: MemoFields,
                       now: nat, balance: int)
    : (r: Result<Admission>)
    requires quantity.symbol == EOS_SYMBOL && quantity.amount >= MIN_DEPOSIT
    ensures r.Err? ==> r.error != NotEosSymbol && r.error != InvalidQuantity && r.error != DepositTooSmall
    ensures r.Ok? ==>
      var bet := r.value.bet;
      && bet.WellFormed()
      && bet.id == AvailablePrimaryKey(bets) && bet.id !in bets
      && bet.player == from && bet.amount == quantity && bet.createdAt == now
      && locked <= balance && MaxPayout(bet.rollUnder, quantity.amount) <= MaxBonus(balance - locked)
      && host.uint64Hash(bet.seedHash) !in hashes
      && r.value.expiration > now
    ensures r.Ok? ==>
      && ReadRollUnder(host, fields.rollUnder) == Ok(r.value.bet.rollUnder)
      && ReadSeedHash(host, hashes, fields.seedHash) == Ok(r.value.bet.seedHash)
      && ReadExpiration(host, fields.expiration, now) == Ok(r.value.expiration)
      && SignatureValid(host, SignedText(text), fields.signature)
      && r.value.bet.referrer == ResolveReferrer(host, account, fields)
  {
    var rollUnder :- ReadRollUnder(host, fields.rollUnder);
    var _ :- CheckBonus(rollUnder, quantity.amount, balance, locked);
    var seedHash :- ReadSeedHash(host, hashes, fields.seedHash);
    var expiration :- ReadExpiration(host, fields.expiration, now);
    if !SignatureValid(host, SignedText(text), fields.signature) then Err(BadSignature)
    else
      var referrer := ResolveReferrer(host, account, fields);
      if referrer == from then Err(ReferrerIsPlayer)
      else
        var bet := Bet(AvailablePrimaryKey(bets), from, referrer, quantity, rollUnder, seedHash, now);
        Ok(Admission(bet, expiration))
  }

  /** Reads the whitespace-free memo `text` of an acceptable deposit and
      checks its fields. */
  function AdmitMemo(account: Name, host: Host, bets: map<nat, Bet>, hashes: map<u64, HashEntry>,
                     locked: int, from: Name, quantity: Asset, text: string, now: nat, balance: int)
    : (r: Result<Admission>)
    requires quantity.symbol == EOS_SYMBOL && quantity.amount >= MIN_DEPOSIT
    ensures r.Err? ==> r.error != NotEosSymbol && r.error != InvalidQuantity && r.error != DepositTooSmall
    ensures ParseMemo(text).Err? ==> r == Err(ParseMemo(text).error)
    ensures r.Ok? ==>
      var bet := r.value.bet;
      && bet.WellFormed()
      && bet.id == AvailablePrimaryKey(bets) && bet.id !in bets
      && bet.player == from && bet.amount == quantity && bet.createdAt == now
      && locked <= balance && MaxPayout(bet.rollUnder, quantity.amount) <= MaxBonus(balance - locked)
      && host.uint64Hash(bet.seedHash) !in hashes
      && r.value.expiration > now
    ensures r.Ok? ==>
      && ParseMemo(text).Ok?
      && var f := ParseMemo(text).value;
      && ReadRollUnder(host, f.rollUnder) == Ok(r.value.bet.rollUnder)
      && ReadSeedHash(host, hashes, f.seedHash) == Ok(r.value.bet.seedHash)
      && ReadExpiration(host, f.expiration, now) == Ok(r.value.expiration)
      && SignatureValid(host, SignedText(text), f.signature)
      && r.value.bet.referrer == ResolveReferrer(host, account, f)
  {
    var fields :- ParseMemo(text);
    AdmitFields(account, host, bets, hashes, locked, from, quantity, text, fields, now, balance)
  }

  /** Checks a deposit of `quantity` from `from` with `memo`, at time `now`,
      with the contract holding `balance`, against the bets table, the
      commitment registry and the locked amount. */
  function CheckOffer(account: Name, host: Host, bets: map<nat, Bet>, hashes: map<u64, HashEntry>,
                      locked: int, from: Name, quantity: Asset, memo: string, now: nat, balance: int)
    : (r: Result<Admission>)
    ensures r == Err(NotEosSymbol) <==> quantity.symbol != EOS_SYMBOL
    ensures r == Err(InvalidQuantity) <==> quantity.symbol == EOS_SYMBOL && !IsValidQuantity(quantity)
    ensures r == Err(DepositTooSmall) <==>
      quantity.symbol == EOS_SYMBOL && IsValidQuantity(quantity) && quantity.amount < MIN_DEPOSIT
    ensures r.Ok? ==>
      var bet := r.value.bet;
      && bet.WellFormed()
      && bet.id == AvailablePrimaryKey(bets) && bet.id !in bets
      && bet.player == from && bet.amount == quantity && IsValidQuantity(quantity) && bet.createdAt == now
      && locked <= balance && MaxPayout(bet.rollUnder, quantity.amount) <= MaxBonus(balance - locked)
      && host.uint64Hash(bet.seedHash) !in hashes
      && r.value.expiration > now
    ensures r.Ok? ==>
      && MemoOf(memo).Ok?
      && var f := MemoOf(memo).value;
      && ReadRollUnder(host, f.rollUnder) == Ok(r.value.bet.rollUnder)
      && ReadSeedHash(host, hashes, f.seedHash) == Ok(r.value.bet.seedHash)
      && ReadExpiration(host, f.expiration, now) == Ok(r.value.expiration)
      && SignatureValid(host, SignedText(RemoveSpaces(memo)), f.signature)
      && r.value.bet.referrer == ResolveReferrer(host, account, f)
  {
    if quantity.symbol != EOS_SYMBOL then Err(NotEosSymbol)
    else if !IsValidQuantity(quantity) then Err(InvalidQuantity)
    else if quantity.amount < MIN_DEPOSIT then Err(DepositTooSmall)
    else AdmitMemo(account, host, bets, hashes, locked, from, quantity, RemoveSpaces(memo), now, balance)
  }

  /** The converse: a deposit that meets every condition is admitted. */
  lemma CheckOfferAccepts(account: Name, host: Host, bets: map<nat, Bet>, hashes: map<u64, HashEntry>,
                          locked: int, from: Name, quantity: Asset, memo: string, now: nat, balance: int,
                          f: MemoFields, rollUnder: nat, seedHash: Checksum, expiration: nat)
    requires quantity.symbol == EOS_SYMBOL && IsValidQuantity(quantity) && quantity.amount >= MIN_DEPOSIT
    requires MemoOf(memo) == Ok(f)
    requires ReadRollUnder(host, f.rollUnder) == Ok(rollUnder)
    requires locked <= balance && MaxPayout(rollUnder, quantity.amount) <= MaxBonus(balance - locked)
    requires ReadSeedHash(host, hashes, f.seedHash) == Ok(seedHash)
    requires ReadExpiration(host, f.expiration, now) == Ok(expiration)
    requires SignatureValid(host, SignedText(RemoveSpaces(memo)), f.signature)
    requires ResolveReferrer(host, account, f) != from
    ensures CheckOffer(account, host, bets, hashes, locked, from, quantity, memo, now, balance)
         == Ok(Admission(Bet(AvailablePrimaryKey(bets), from, ResolveReferrer(host, account, f), quantity,
                             rollUnder, seedHash, now), expiration))
  {
    assert rollUnder >= 2;
    assert CheckBonus(rollUnder, quantity.amount, balance, locked) == Ok(());
  }

  /** A memo composed from well-formed, whitespace-free fields and signed
      over the part before its signature is admitted with those fields. */
  lemma ComposedMemoAdmitted(account: Name, host: Host, bets: map<nat, Bet>, hashes: map<u64, HashEntry>,
                             locked: int, from: Name, quantity: Asset, now: nat, balance: int,
                             f: MemoFields, rollUnder: nat, seedHash: Checksum, expiration: nat)
    requires quantity.symbol == EOS_SYMBOL && IsValidQuantity(quantity) && quantity.amount >= MIN_DEPOSIT
    requires WellFormedFields(f) && SEP !in f.signature
    requires forall i :: 0 <= i < |Compose(f)| ==> !IsSpace(Compose(f)[i])
    requires ReadRollUnder(host, f.rollUnder) == Ok(rollUnder)
    requires locked <= balance && MaxPayout(rollUnder, quantity.amount) <= MaxBonus(balance - locked)
    requires ReadSeedHash(host, hashes, f.seedHash) == Ok(seedHash)
    requires ReadExpiration(host, f.expiration, now) == Ok(expiration)
    requires SignatureValid(host, SignedPart(f), f.signature)
    requires ResolveReferrer(host, account, f) != from
    ensures CheckOffer(account, host, bets, hashes, locked, from, quantity, Compose(f), now, balance)
         == Ok(Admission(Bet(AvailablePrimaryKey(bets), from, ResolveReferrer(host, account, f), quantity,
                             rollUnder, seedHash, now), expiration))
  {
    ParseCompose(f);
    SignedTextOfCompose(f);
    CheckOfferAccepts(account, host, bets, hashes, locked, from, quantity, Compose(f), now, balance,
                      f, rollUnder, seedHash, expiration);
  }

  /** Whitespace in the memo changes nothing: it is removed before reading. */
  lemma CheckOfferIgnoresWhitespace(account: Name, host: Host, bets: map<nat, Bet>, hashes: map<u64, HashEntry>,
                                    locked: int, from: Name, quantity: Asset, memo: string, now: nat, balance: int)
    ensures CheckOffer(account, host, bets, hashes, locked, from, quantity, memo, now, balance)
         == CheckOffer(account, host, bets, hashes, locked, from, quantity, RemoveSpaces(memo), now, balance)
  {
    assert RemoveSpaces(RemoveSpaces(memo)) == RemoveSpaces(memo);
  }

  /** Inserting a run of whitespace anywhere in the memo keeps the outcome. */
  lemma CheckOfferInsertedWhitespace(account: Name, host: Host, bets: map<nat, Bet>, hashes: map<u64, HashEntry>,
                                     locked: int, from: Name, quantity: Asset, a: string, w: string, b: string,
                                     now: nat, balance: int)
    requires forall i :: 0 <= i < |w| ==> IsSpace(w[i])
    ensures CheckOffer(account, host, bets, hashes, locked, from, quantity, a + w + b, now, balance)
         == CheckOffer(account, host, bets, hashes, locked, from, quantity, a + b, now, balance)
  {
    RemoveSpacesInserted(a, w, b);
    CheckOfferSameStripped(account, host, bets, hashes, locked, from, quantity, a + w + b, a + b, now, balance);
  }

  /** Memos equal once their whitespace is removed have the same outcome. */
  lemma CheckOfferSameStripped(account: Name, host: Host, bets: map<nat, Bet>, hashes: map<u64, HashEntry>,
                               locked: int, from: Name, quantity: Asset, m1: string, m2: string,
                               now: nat, balance: int)
    requires RemoveSpaces(m1) == RemoveSpaces(m2)
    ensures CheckOffer(account, host, bets, hashes, locked, from, quantity, m1, now, balance)
         == CheckOffer(account, host, bets, hashes, locked, from, quantity, m2, now, balance)
  {
  }

  /** A memo with fewer than three separators, whitespace aside, is refused
      for it once the deposit itself is acceptable. */
  lemma CheckOfferMissingSeparator(account: Name, host: Host, bets: map<nat, Bet>, hashes: map<u64, HashEntry>,
                                   locked: int, from: Name, quantity: Asset, memo: string, now: nat, balance: int)
    requires quantity.symbol == EOS_SYMBOL && IsValidQuantity(quantity) && quantity.amount >= MIN_DEPOSIT
    requires Count(memo, SEP) < 3
    ensures CheckOffer(account, host, bets, hashes, locked, from, quantity, memo, now, balance)
         == Err(MissingSeparator)
  {
    RemoveSpacesCount(memo, SEP);
    ParseMemoMissingSeparator(RemoveSpaces(memo));
  }
}
