/** The dice contract as an object over its tables: the bets table, the
    commitment registry, the fund-pool and counter singletons, and the queue
    of outbound actions. `Offer` admits a deposit, `Reveal` settles a bet;
    the remaining methods are the table operations they are built from. */
module FairDice {
  import opened Types
  import opened Arithmetic
  import opened Tables
  import opened Admission
  import opened Settlement

  /** The fund-pool singleton as read: a missing record reads as nothing locked. */
  function FundPoolOrDefault(record: Option<FundPool>): (pool: FundPool)
    ensures record.None? ==> pool.locked == Asset(0, EOS_SYMBOL)
    ensures record.Some? ==> pool == record.value
  {
    match record
    case Some(p) => p
    case None => FundPool(Asset(0, EOS_SYMBOL))
  }

  /** 2^64, the range of the identifier counter. */
  const U64_RANGE: nat := 0x1_0000_0000_0000_0000

  /** The counter's next value: one more, wrapping around at 2^64. */
  function Successor(current: nat): (next: nat)
    ensures next < U64_RANGE
    ensures current + 1 < U64_RANGE ==> next == current + 1
    ensures current == U64_RANGE - 1 ==> next == 0
  {
    (current + 1) % U64_RANGE
  }

  /** The state invariant: each bet is stored under its own identifier,
      satisfies the admission bounds and was not placed by the contract; each registry
      entry is keyed by its hash; and the locked amount, in EOS, is exactly
      the total stake of the open bets. */
  ghost predicate Consistent(account: Name, host: Host, bets: map<nat, Bet>, hashes: map<u64, HashEntry>,
                             fundPool: Option<FundPool>)
  {
    && (forall id :: id in bets ==> bets[id].id == id && bets[id].WellFormed() && bets[id].player != account)
    && (forall k :: k in hashes ==> host.uint64Hash(hashes[k].hash) == k)
    && FundPoolOrDefault(fundPool).locked.symbol == EOS_SYMBOL
    && FundPoolOrDefault(fundPool).locked.amount == Staked(bets)
  }

  /** Storing an admitted bet, registering its commitment after a sweep and
      locking its stake keeps the state invariant. */
  lemma AdmissionKeepsConsistent(account: Name, host: Host, bets: map<nat, Bet>, hashes: map<u64, HashEntry>,
                                 fundPool: Option<FundPool>, bet: Bet, expiration: nat, now: nat)
    requires Consistent(account, host, bets, hashes, fundPool)
    requires bet.id !in bets && bet.WellFormed() && bet.player != account
    ensures Consistent(account, host, bets[bet.id := bet],
                       Unexpired(hashes, now)[host.uint64Hash(bet.seedHash) := HashEntry(bet.seedHash, expiration)],
                       Some(FundPool(Asset(FundPoolOrDefault(fundPool).locked.amount + bet.amount.amount, EOS_SYMBOL))))
  {
    StakedInsert(bets, bet);
  }

  /** In a consistent state nothing locked is negative and the locked
      amount covers the stake of every open bet, so releasing one stake
      never fails. */
  lemma ConsistentCoversStake(account: Name, host: Host, bets: map<nat, Bet>, hashes: map<u64, HashEntry>,
                              fundPool: Option<FundPool>, id: nat)
    requires Consistent(account, host, bets, hashes, fundPool)
    requires id in bets
    ensures 0 <= Stake(bets[id]) <= FundPoolOrDefault(fundPool).locked.amount
  {
    StakeOfCovers(bets, bets.Keys);
  }

  /** Deleting a settled bet and releasing its stake keeps the state invariant. */
  lemma SettlementKeepsConsistent(account: Name, host: Host, bets: map<nat, Bet>, hashes: map<u64, HashEntry>,
                                  fundPool: Option<FundPool>, id: nat)
    requires Consistent(account, host, bets, hashes, fundPool)
    requires id in bets
    ensures Consistent(account, host, bets - {id}, hashes,
                       Some(FundPool(Asset(FundPoolOrDefault(fundPool).locked.amount - bets[id].amount.amount, EOS_SYMBOL))))
  {
    StakedRemove(bets, id);
  }

  /** In a consistent state the locked amount is never negative. */
  lemma ConsistentLockedNonNegative(account: Name, host: Host, bets: map<nat, Bet>, hashes: map<u64, HashEntry>,
                                    fundPool: Option<FundPool>)
    requires Consistent(account, host, bets, hashes, fundPool)
    ensures 0 <= FundPoolOrDefault(fundPool).locked.amount
  {
    StakeOfCovers(bets, bets.Keys);
  }

  class FairDiceGame {
    /** The contract's own account. */
    const account: Name
    /** The only account allowed to reveal. */
    const revealer: Name
    /** Where settlement records are sent. */
    const logger: Name
    /** Hashing, key recovery and text parsing, as the platform supplies them. */
    const host: Host

    var bets: map<nat, Bet>
    /** The commitment registry, keyed by the 64-bit hash of each commitment. */
    var hashes: map<u64, HashEntry>
    var fundPool: Option<FundPool>
    var global: Option<Global>
    /** Actions queued by committed invocations, oldest first. */
    var outbox: seq<Effect>

    /** The amount reserved for open bets. */
    function Locked(): int
      reads this`fundPool
    {
      FundPoolOrDefault(fundPool).locked.amount
    }

    /** What every committed invocation preserves; see `Consistent`. */
    ghost predicate Valid()
      reads this
    {
      Consistent(account, host, bets, hashes, fundPool)
    }

    constructor(account: Name, revealer: Name, logger: Name, host: Host)
      ensures this.account == account && this.revealer == revealer && this.logger == logger && this.host == host
      ensures bets == map[] && hashes == map[] && fundPool == None && global == None && outbox == []
      ensures Valid()
    {
      this.account := account;
      this.revealer := revealer;
      this.logger := logger;
      this.host := host;
      bets := map[];
      hashes := map[];
      fundPool := None;
      global := None;
      outbox := [];
    }

    /** Advances the identifier counter, seeding it from the bets table's
        next free key on first use, and returns the new value. */
    method NextId() returns (id: nat)
      modifies this`global
      ensures var current := if old(global).Some? then old(global).value.currentId else AvailablePrimaryKey(bets);
        id == Successor(current)
      ensures global == Some(Global(id))
    {
      var current := match global
        case Some(g) => g.currentId
        case None => AvailablePrimaryKey(bets);
      id := Successor(current);
      global := Some(Global(id));
    }

    /** Erases, earliest expiration first, every registry entry that has
        expired at `now`. */
    method Cleanup(now: nat)
      modifies this`hashes
      ensures hashes == Unexpired(old(hashes), now)
    {
      while exists k :: k in hashes && hashes[k].expiration <= now
        invariant hashes.Keys <= old(hashes).Keys
        invariant forall k :: k in hashes ==> hashes[k] == old(hashes)[k]
        invariant forall k :: k in old(hashes) && old(hashes)[k].expiration > now ==> k in hashes
        decreases hashes.Keys
      {
        EarliestExists(hashes);
        var k :| IsEarliest(hashes, k);
        hashes := hashes - {k};
      }
      assert hashes.Keys == Unexpired(old(hashes), now).Keys;
    }

    /** Stores an admitted bet, sweeps the registry, and registers the
        bet's commitment until `expiration`. */
    method Save(bet: Bet, expiration: nat, now: nat)
      requires bet.id !in bets && host.uint64Hash(bet.seedHash) !in Unexpired(hashes, now)
      modifies this`bets, this`hashes
      ensures bets == old(bets)[bet.id := bet]
      ensures hashes == Unexpired(old(hashes), now)[host.uint64Hash(bet.seedHash) := HashEntry(bet.seedHash, expiration)]
    {
      bets := bets[bet.id := bet];
      Cleanup(now);
      hashes := hashes[host.uint64Hash(bet.seedHash) := HashEntry(bet.seedHash, expiration)];
    }

    /** Deletes a stored bet. */
    method Remove(bet: Bet)
      requires bet.id in bets
      modifies this`bets
      ensures bets == old(bets) - {bet.id}
    {
      bets := bets - {bet.id};
    }

    /** Reserves `amount` in the fund pool. */
    method Lock(amount: Asset)
      requires amount.symbol == FundPoolOrDefault(fundPool).locked.symbol
      modifies this`fundPool
      ensures fundPool == Some(FundPool(Asset(old(Locked()) + amount.amount, amount.symbol)))
    {
      var pool := FundPoolOrDefault(fundPool);
      pool := pool.(locked := Asset(pool.locked.amount + amount.amount, pool.locked.symbol));
      fundPool := Some(pool);
    }

    /** Releases `amount` from the fund pool, refusing to go below zero. */
    method Unlock(amount: Asset) returns (r: Result<()>)
      requires amount.symbol == FundPoolOrDefault(fundPool).locked.symbol
      modifies this`fundPool
      ensures r.Ok? <==> amount.amount <= old(Locked())
      ensures r.Ok? ==> fundPool == Some(FundPool(Asset(old(Locked()) - amount.amount, amount.symbol)))
      ensures r.Err? ==> r.error == FundUnlockError && fundPool == old(fundPool)
    {
      var pool := FundPoolOrDefault(fundPool);
      pool := pool.(locked := Asset(pool.locked.amount - amount.amount, pool.locked.symbol));
      if pool.locked.amount < 0 {
        return Err(FundUnlockError);
      }
      fundPool := Some(pool);
      r := Ok(());
    }

    /** Handles an incoming transfer. Transfers not addressed to the
        contract, or sent by it, are ignored. A deposit that fails a check
        aborts with nothing written; one that passes is stored, its stake
        locked and a receipt queued. */
    method Offer(from: Name, to: Name, quantity: Asset, memo: string, now: nat, balance: int)
      returns (r: Result<()>)
      requires Valid()
      modifies this`bets, this`hashes, this`fundPool, this`outbox
      ensures Valid()
      ensures from == account || to != account ==>
        r == Ok(()) && bets == old(bets) && hashes == old(hashes) && fundPool == old(fundPool) && outbox == old(outbox)
      ensures from != account && to == account ==>
        var checked := CheckOffer(account, host, old(bets), old(hashes), old(Locked()), from, quantity, memo, now, balance);
        && (checked.Err? ==>
              r == Err(checked.error)
              && bets == old(bets) && hashes == old(hashes) && fundPool == old(fundPool) && outbox == old(outbox))
        && (checked.Ok? ==>
              var bet := checked.value.bet;
              && r == Ok(())
              && bets == old(bets)[bet.id := bet]
              && hashes == Unexpired(old(hashes), now)[host.uint64Hash(bet.seedHash) := HashEntry(bet.seedHash, checked.value.expiration)]
              && Locked() == old(Locked()) + quantity.amount
              && outbox == old(outbox) + [Receipt(bet)])
    {
      if from == account || to != account {
        return Ok(());
      }
      var checked := CheckOffer(account, host, bets, hashes, Locked(), from, quantity, memo, now, balance);
      if checked.Err? {
        return Err(checked.error);
      }
      Admit(checked.value, now);
      r := Ok(());
    }

    /** The write phase of an offer: stores the admitted bet, sweeps the
        registry and registers its commitment, locks its stake and queues
        the receipt. */
    method Admit(admitted: Admission, now: nat)
      requires Valid()
      requires admitted.bet.WellFormed() && admitted.bet.player != account
      requires admitted.bet.id !in bets && host.uint64Hash(admitted.bet.seedHash) !in hashes
      modifies this`bets, this`hashes, this`fundPool, this`outbox
      ensures Valid()
      ensures bets == old(bets)[admitted.bet.id := admitted.bet]
      ensures hashes == Unexpired(old(hashes), now)[host.uint64Hash(admitted.bet.seedHash) :=
                                                      HashEntry(admitted.bet.seedHash, admitted.expiration)]
      ensures Locked() == old(Locked()) + admitted.bet.amount.amount
      ensures outbox == old(outbox) + [Receipt(admitted.bet)]
    {
      AdmissionKeepsConsistent(account, host, bets, hashes, fundPool, admitted.bet, admitted.expiration, now);
      Save(admitted.bet, admitted.expiration, now);
      Lock(admitted.bet.amount);
      outbox := outbox + [Receipt(admitted.bet)];
    }

    /** Settles bet `id` with the revealed `seed` on behalf of `caller`,
        the contract holding `balance`. Aborts with nothing written when the
        caller is not the revealer, the bet is gone, the seed does not match
        its commitment, or a win finds the pool overdrawn. Otherwise the bet
        is removed, its stake released, and the settlement's actions queued. */
    method Reveal(caller: Name, id: nat, seed: Checksum, balance: int) returns (r: Result<()>)
      requires Valid()
      modifies this`bets, this`fundPool, this`outbox
      ensures Valid()
      ensures r.Err? ==> bets == old(bets) && fundPool == old(fundPool) && outbox == old(outbox)
      ensures r == Err(MissingAuthority) <==> caller != revealer
      ensures caller == revealer ==> (r == Err(BetNotFound) <==> id !in old(bets))
      ensures caller == revealer && id in old(bets) ==>
        (r == Err(InvalidSeed) <==> !SeedMatches(host, seed, old(bets)[id].seedHash))
      ensures caller == revealer && id in old(bets) && SeedMatches(host, seed, old(bets)[id].seedHash) ==>
        && (r.Ok? <==> Settle(host, old(bets)[id], seed, balance, old(Locked())).Ok?)
        && (r.Err? ==> r.error == FundPoolOverdraw)
      ensures r.Ok? ==>
        && caller == revealer && id in old(bets) && SeedMatches(host, seed, old(bets)[id].seedHash)
        && var bet := old(bets)[id];
        && Settle(host, bet, seed, balance, old(Locked())).Ok?
        && bets == old(bets) - {id}
        && Locked() == old(Locked()) - bet.amount.amount
        && outbox == old(outbox) + Effects(account, logger, bet, seed, Settle(host, bet, seed, balance, old(Locked())).value)
      ensures r.Err? ==> r.error in {MissingAuthority, BetNotFound, InvalidSeed, FundPoolOverdraw}
    {
      if caller != revealer {
        return Err(MissingAuthority);
      }
      var found := FindOrError(bets, id);
      if found.Err? {
        return Err(found.error);
      }
      var bet := found.value;
      if !SeedMatches(host, seed, bet.seedHash) {
        return Err(InvalidSeed);
      }
      var roll := RandomRoll(host.uint64Hash(seed));
      var payout := 0;
      var pending: seq<Effect> := [];
      if roll < bet.rollUnder {
        var available := AvailableBalance(balance, Locked());
        if available.Err? {
          return Err(available.error);
        }
        payout := ComputePayout(bet.rollUnder, bet.amount.amount, available.value);
        pending := pending + [Transfer(account, bet.player, Asset(payout, bet.amount.symbol), "")];
      }
      var outcome := Outcome(roll, payout);
      assert Settle(host, bet, seed, balance, Locked()) == Ok(outcome);
      Release(bet, seed, outcome, pending);
      r := Ok(());
    }

    /** The write phase of a reveal, after the win transfer (if any) is in
        `pending`: releases the stake, adds the referral fee unless the
        referrer is the contract, deletes the bet, adds the settlement
        record, and queues everything. */
    method Release(bet: Bet, seed: Checksum, outcome: Outcome, pending: seq<Effect>)
      requires Valid()
      requires bet.id in bets && bets[bet.id] == bet
      requires pending == if outcome.roll < bet.rollUnder
        then [Transfer(account, bet.player, Asset(outcome.payout, bet.amount.symbol), "")] else []
      modifies this`bets, this`fundPool, this`outbox
      ensures Valid()
      ensures bets == old(bets) - {bet.id}
      ensures Locked() == old(Locked()) - bet.amount.amount
      ensures outbox == old(outbox) + Effects(account, logger, bet, seed, outcome)
    {
      var queued := pending;
      ConsistentCoversStake(account, host, bets, hashes, fundPool, bet.id);
      SettlementKeepsConsistent(account, host, bets, hashes, fundPool, bet.id);
      var unlocked := Unlock(bet.amount);
      // The locked total covers every open stake, so unlocking one cannot fail.
      assert unlocked.Ok?;
      if bet.referrer != account {
        queued := queued
          + [Transfer(account, bet.referrer, Asset(ReferrerReward(bet.amount.amount), bet.amount.symbol), "")];
      }
      Remove(bet);
      queued := queued + [LogResult(logger, Record(bet, seed, outcome))];
      outbox := outbox + queued;
    }
  }

  /** Two advances of the counter yield consecutive identifiers. */
  method SuccessiveIds(game: FairDiceGame) returns (first: nat, second: nat)
    modifies game`global
    ensures first < U64_RANGE - 1 ==> second == first + 1
  {
    first := game.NextId();
    second := game.NextId();
  }

  /** A bet is settled at most once: after a successful reveal, revealing
      the same identifier again finds no bet. */
  method RevealTwice(game: FairDiceGame, caller: Name, id: nat, seed: Checksum, balance: int)
    returns (first: Result<()>, second: Result<()>)
    requires game.Valid()
    modifies game`bets, game`fundPool, game`outbox
    ensures game.Valid()
    ensures first.Ok? ==> second == Err(BetNotFound)
  {
    first := game.Reveal(caller, id, seed, balance);
    second := game.Reveal(caller, id, seed, balance);
  }
}
