/** The pure expressions of the contract: the roll derived from a revealed
    seed, the referral fee, and the payout ceiling arithmetic. Amounts are in
    units of 10^-4 EOS; division of assets truncates toward zero, as the
    host's 64-bit integer division does. */
module Arithmetic {
  import opened Types

  /** Integer division rounding toward zero, for a positive divisor. */
  function TruncDiv(a: int, b: int): (q: int)
    requires b > 0
    ensures a >= 0 ==> 0 <= q && q * b <= a < q * b + b
    ensures a < 0 ==> q <= 0 && q * b - b < a <= q * b
  {
    if a >= 0 then
      DivBounds(a, b);
      a / b
    else
      DivBounds(-a, b);
      var q := (-a) / b;
      assert -q * b == -(q * b);
      -q
  }

  /** Euclidean division of a non-negative number leaves a remainder below the divisor. */
  lemma DivBounds(n: int, d: int)
    requires n >= 0 && d > 0
    ensures 0 <= n / d && (n / d) * d <= n < (n / d) * d + d
  {
    var q, r := n / d, n % d;
    assert n == q * d + r && 0 <= r < d;
  }

  /** The roll of a revealed seed, from the 64-bit hash of the seed. */
  function RandomRoll(seedHash64: u64): (roll: nat)
    ensures 1 <= roll <= 100
    ensures (roll - 1) % 100 == seedHash64 as int % 100
  {
    seedHash64 as int % 100 + 1
  }

  /** The referral fee: 0.5% of the stake, truncated. */
  function ReferrerReward(amount: int): (reward: int)
    ensures amount >= 0 ==> 0 <= reward && 200 * reward <= amount < 200 * reward + 200
  {
    TruncDiv(amount, 200)
  }

  /** What a winning bet pays before the bonus ceiling: the stake times
      98 / (rollUnder - 1), truncated. With win probability
      (rollUnder - 1) / 100 this leaves the house a 2% edge. */
  function MaxPayout(rollUnder: nat, amount: int): (payout: int)
    requires rollUnder >= 2
    ensures amount >= 0 ==> 0 <= payout
    ensures amount >= 0 ==> (rollUnder - 1) * payout <= 98 * amount < (rollUnder - 1) * (payout + 1)
  {
    TruncDiv(amount * 98, rollUnder - 1)
  }

  /** The bonus ceiling: 1% of the available balance, truncated. */
  function MaxBonus(available: int): (bonus: int)
    ensures available >= 0 ==> 0 <= bonus && 100 * bonus <= available < 100 * bonus + 100
  {
    TruncDiv(available, 100)
  }

  /** What a winning bet pays: the smaller of its payout and the bonus ceiling. */
  function ComputePayout(rollUnder: nat, amount: int, available: int): (payout: int)
    requires rollUnder >= 2
    ensures payout <= MaxPayout(rollUnder, amount) && payout <= MaxBonus(available)
    ensures payout == MaxPayout(rollUnder, amount) || payout == MaxBonus(available)
    ensures amount >= 0 && available >= 0 ==> 0 <= payout && 100 * payout <= available
    ensures amount >= 0 ==> (rollUnder - 1) * payout <= 98 * amount
  {
    var full := MaxPayout(rollUnder, amount);
    var bonus := MaxBonus(available);
    if full <= bonus then full else bonus
  }

  /** The balance not reserved for open bets; negative is an overdraw. */
  function AvailableBalance(balance: int, locked: int): (r: Result<int>)
    ensures r.Ok? <==> locked <= balance
    ensures r.Ok? ==> r.value == balance - locked && r.value >= 0
    ensures r.Err? ==> r.error == FundPoolOverdraw
  {
    var available := balance - locked;
    if available < 0 then Err(FundPoolOverdraw) else Ok(available)
  }

  /** Multiplying by a non-negative factor keeps the order. */
  lemma MulMonotone(x: int, y: int, k: int)
    requires x <= y && k >= 0
    ensures k * x <= k * y
  {
  }

  /** A higher threshold never pays more. */
  lemma {:induction false} MaxPayoutAntitone(low: nat, high: nat, amount: int)
    requires 2 <= low <= high
    requires amount >= 0
    ensures MaxPayout(high, amount) <= MaxPayout(low, amount)
  {
    var pl, ph := MaxPayout(low, amount), MaxPayout(high, amount);
    var a, b := low - 1, high - 1;
    assert b * ph <= 98 * amount < a * (pl + 1);
    MulMonotone(a, b, ph);
    assert a * ph < a * (pl + 1);
    if ph > pl {
      MulMonotone(pl + 1, ph, a);
    }
  }

  /** Up to a threshold of 99 the odds payout, before the bonus ceiling caps it,
      is at least the stake. */
  lemma {:induction false} MaxPayoutCoversStake(rollUnder: nat, amount: int)
    requires 2 <= rollUnder <= 99
    requires amount >= 0
    ensures amount <= MaxPayout(rollUnder, amount)
  {
    var p, a := MaxPayout(rollUnder, amount), rollUnder - 1;
    assert 98 * amount < a * (p + 1);
    MulMonotone(a, 98, amount);
    if p < amount {
      MulMonotone(p + 1, amount, a);
    }
  }

  /** Payout with a threshold of 50 doubles the stake, capped by the bonus. */
  lemma EvenOddsPayout(available: int)
    requires available >= 0
    ensures MaxPayout(50, 100) == 200
    ensures ComputePayout(50, 100, available) == if 200 <= available / 100 then 200 else available / 100
  {
  }
}
