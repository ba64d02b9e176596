/** The contract's tables as values, and what reading them means: the bets
    table with its next free primary key, the lookups that abort, the
    commitment registry with its expiry sweep, and the total stake held by
    open bets. */
module Tables {
  import opened Types

  /** A non-empty set of keys has a largest element. */
  lemma {:induction false} MaxExists(keys: set<nat>)
    requires keys != {}
    ensures exists m :: m in keys && forall k :: k in keys ==> k <= m
    decreases keys
  {
    var x :| x in keys;
    var rest := keys - {x};
    var top := x;
    if rest != {} {
      MaxExists(rest);
      var m :| m in rest && forall k :: k in rest ==> k <= m;
      top := if x <= m then m else x;
    }
    forall k | k in keys ensures k <= top {
      if k != x {
        assert k in rest;
      }
    }
    assert top in keys;
  }

  /** The largest key of a non-empty key set. */
  function MaxKey(keys: set<nat>): (m: nat)
    requires keys != {}
    ensures m in keys && forall k :: k in keys ==> k <= m
  {
    MaxExists(keys);
    var m :| m in keys && forall k :: k in keys ==> k <= m;
    m
  }

  /** The primary key the bets table hands out next: one past the largest
      key in use, or 0 for an empty table. */
  function AvailablePrimaryKey(bets: map<nat, Bet>): (key: nat)
    ensures key !in bets
    ensures forall id :: id in bets ==> id < key
    ensures bets == map[] ==> key == 0
    ensures bets != map[] ==> key >= 1 && key - 1 in bets
  {
    if bets.Keys == {} then
      assert bets == map[];
      0
    else
      MaxKey(bets.Keys) + 1
  }

  /** Once the newest bet is settled its identifier is handed out again:
      the next key is never past the removed one. */
  lemma PrimaryKeyReused(bets: map<nat, Bet>, id: nat)
    requires id in bets && AvailablePrimaryKey(bets) == id + 1
    ensures AvailablePrimaryKey(bets - {id}) <= id
  {
    var rest := bets - {id};
    if rest != map[] {
      var k := AvailablePrimaryKey(rest);
      assert k - 1 in bets && k - 1 != id;
    }
  }

  /** The lookup that aborts with "bet not found". */
  function FindOrError(bets: map<nat, Bet>, id: nat): (r: Result<Bet>)
    ensures r.Ok? <==> id in bets
    ensures r.Ok? ==> r.value == bets[id]
    ensures r.Err? ==> r.error == BetNotFound
  {
    if id in bets then Ok(bets[id]) else Err(BetNotFound)
  }

  /** The replay check: a commitment whose 64-bit hash already keys an entry
      of the registry is refused. */
  function AssertHash(host: Host, hashes: map<u64, HashEntry>, seedHash: Checksum): (r: Result<()>)
    ensures r.Err? <==> host.uint64Hash(seedHash) in hashes
    ensures r.Err? ==> r.error == HashDuplicate
  {
    if host.uint64Hash(seedHash) in hashes then Err(HashDuplicate) else Ok(())
  }

  /** The registry entries that a sweep at time `now` keeps. */
  function Unexpired(hashes: map<u64, HashEntry>, now: nat): (kept: map<u64, HashEntry>)
    ensures forall k :: k in kept <==> k in hashes && hashes[k].expiration > now
    ensures forall k :: k in kept ==> kept[k] == hashes[k]
  {
    map k | k in hashes && hashes[k].expiration > now :: hashes[k]
  }

  /** `k` keys an entry whose expiration is earliest in the registry. */
  predicate IsEarliest(hashes: map<u64, HashEntry>, k: u64) {
    k in hashes && forall j :: j in hashes ==> hashes[k].expiration <= hashes[j].expiration
  }

  /** The expiration index of a non-empty registry has a first entry. */
  lemma {:induction false} EarliestExists(hashes: map<u64, HashEntry>)
    requires hashes != map[]
    ensures exists k :: IsEarliest(hashes, k)
    decreases hashes.Keys
  {
    var x :| x in hashes;
    var rest := hashes - {x};
    if rest == map[] {
      forall j | j in hashes ensures j == x {
        assert j !in rest;
      }
      assert IsEarliest(hashes, x);
    } else {
      EarliestExists(rest);
      var y :| IsEarliest(rest, y);
      var first := if hashes[x].expiration <= hashes[y].expiration then x else y;
      forall j | j in hashes ensures hashes[first].expiration <= hashes[j].expiration {
        if j != x {
          assert j in rest;
        }
      }
      assert IsEarliest(hashes, first);
    }
  }

  /** The stake of one bet. */
  function Stake(bet: Bet): int {
    bet.amount.amount
  }

  /** The total stake of the bets whose identifiers are in `ids`. */
  ghost function StakeOf(bets: map<nat, Bet>, ids: set<nat>): int
    requires ids <= bets.Keys
    decreases ids
  {
    if ids == {} then 0
    else
      var id :| id in ids;
      Stake(bets[id]) + StakeOf(bets, ids - {id})
  }

  /** The total stake of all open bets, which the fund pool keeps locked. */
  ghost function Staked(bets: map<nat, Bet>): int {
    StakeOf(bets, bets.Keys)
  }

  /** The total does not depend on which identifier is taken out first. */
  lemma {:induction false} StakeOfRemove(bets: map<nat, Bet>, ids: set<nat>, id: nat)
    requires ids <= bets.Keys && id in ids
    ensures StakeOf(bets, ids) == Stake(bets[id]) + StakeOf(bets, ids - {id})
    decreases ids
  {
    var first :| first in ids && StakeOf(bets, ids) == Stake(bets[first]) + StakeOf(bets, ids - {first});
    if first != id {
      StakeOfRemove(bets, ids - {first}, id);
      StakeOfRemove(bets, ids - {id}, first);
      assert ids - {first} - {id} == ids - {id} - {first};
    }
  }

  /** The total over `ids` reads only the bets in `ids`. */
  lemma {:induction false} StakeOfFrame(a: map<nat, Bet>, b: map<nat, Bet>, ids: set<nat>)
    requires ids <= a.Keys && ids <= b.Keys
    requires forall id :: id in ids ==> a[id] == b[id]
    ensures StakeOf(a, ids) == StakeOf(b, ids)
    decreases ids
  {
    if ids != {} {
      var id :| id in ids && StakeOf(a, ids) == Stake(a[id]) + StakeOf(a, ids - {id});
      StakeOfRemove(b, ids, id);
      StakeOfFrame(a, b, ids - {id});
    }
  }

  /** Admitting a bet under a fresh identifier adds its stake to the total. */
  lemma StakedInsert(bets: map<nat, Bet>, bet: Bet)
    requires bet.id !in bets
    ensures Staked(bets[bet.id := bet]) == Staked(bets) + Stake(bet)
  {
    var after := bets[bet.id := bet];
    assert after.Keys - {bet.id} == bets.Keys;
    StakeOfRemove(after, after.Keys, bet.id);
    StakeOfFrame(after, bets, bets.Keys);
  }

  /** Settling a bet takes its stake off the total. */
  lemma StakedRemove(bets: map<nat, Bet>, id: nat)
    requires id in bets
    ensures Staked(bets - {id}) == Staked(bets) - Stake(bets[id])
  {
    var after := bets - {id};
    assert after.Keys == bets.Keys - {id};
    StakeOfRemove(bets, bets.Keys, id);
    StakeOfFrame(after, bets, after.Keys);
  }

  /** With non-negative stakes, the total covers every single stake. */
  lemma {:induction false} StakeOfCovers(bets: map<nat, Bet>, ids: set<nat>)
    requires ids <= bets.Keys
    requires forall id :: id in ids ==> Stake(bets[id]) >= 0
    ensures StakeOf(bets, ids) >= 0
    ensures forall id :: id in ids ==> Stake(bets[id]) <= StakeOf(bets, ids)
    decreases ids
  {
    if ids != {} {
      var first :| first in ids && StakeOf(bets, ids) == Stake(bets[first]) + StakeOf(bets, ids - {first});
      StakeOfCovers(bets, ids - {first});
    }
  }
}
