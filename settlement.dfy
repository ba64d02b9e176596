/** The outcome of a reveal as values: the roll the revealed seed yields,
    what a win pays, and the outbound actions a successful settlement
    queues (the winner's transfer, the referral fee, the audit record). */
module Settlement {
  import opened Types
  import opened Arithmetic

  /** The roll of a revealed seed and what it pays the player. */
  datatype Outcome = Outcome(roll: nat, payout: int)

  /** Settles `bet` with the revealed `seed`, the contract holding `balance`
      with `locked` reserved. A win pays the payout capped by the bonus
      ceiling; computing that ceiling aborts when the pool is overdrawn. */
  function Settle(host: Host, bet: Bet, seed: Checksum, balance: int, locked: int): (r: Result<Outcome>)
    requires bet.WellFormed()
    ensures r.Err? <==> RandomRoll(host.uint64Hash(seed)) < bet.rollUnder && locked > balance
    ensures r.Err? ==> r.error == FundPoolOverdraw
    ensures r.Ok? ==> r.value.roll == RandomRoll(host.uint64Hash(seed)) && 1 <= r.value.roll <= 100
    ensures r.Ok? && r.value.roll < bet.rollUnder ==>
      r.value.payout == ComputePayout(bet.rollUnder, bet.amount.amount, balance - locked)
    ensures r.Ok? && r.value.roll >= bet.rollUnder ==> r.value.payout == 0
    ensures r.Ok? ==>
      && 0 <= r.value.payout
      && (bet.rollUnder - 1) * r.value.payout <= 98 * bet.amount.amount
      && (r.value.payout > 0 ==> 100 * r.value.payout <= balance - locked)
  {
    var roll := RandomRoll(host.uint64Hash(seed));
    if roll < bet.rollUnder then
      var available :- AvailableBalance(balance, locked);
      Ok(Outcome(roll, ComputePayout(bet.rollUnder, bet.amount.amount, available)))
    else
      Ok(Outcome(roll, 0))
  }

  /** The public record of a settled bet. */
  function Record(bet: Bet, seed: Checksum, outcome: Outcome): BetResult {
    BetResult(bet.id, bet.player, bet.referrer, bet.amount, bet.rollUnder, outcome.roll, seed, bet.seedHash,
              Asset(outcome.payout, bet.amount.symbol))
  }

  /** The total of the transfers in `effects` addressed to `to`. */
  function TransferredTo(effects: seq<Effect>, to: Name): int {
    if effects == [] then 0
    else (if effects[0].Transfer? && effects[0].to == to then effects[0].quantity.amount else 0)
         + TransferredTo(effects[1..], to)
  }

  lemma {:induction false} TransferredToAppend(a: seq<Effect>, b: seq<Effect>, to: Name)
    ensures TransferredTo(a + b, to) == TransferredTo(a, to) + TransferredTo(b, to)
  {
    if a != [] {
      assert (a + b)[1..] == a[1..] + b;
      TransferredToAppend(a[1..], b, to);
    } else {
      assert a + b == b;
    }
  }

  /** The actions a successful settlement queues, in order: the winner's
      transfer on a win, the referral fee unless the referrer is the
      contract itself, and the audit record sent to `logger`. */
  function Effects(account: Name, logger: Name, bet: Bet, seed: Checksum, outcome: Outcome): (effects: seq<Effect>)
    requires bet.player != bet.referrer && bet.player != account
    ensures |effects| == (if outcome.roll < bet.rollUnder then 1 else 0) + (if bet.referrer != account then 1 else 0) + 1
    ensures effects[|effects| - 1] == LogResult(logger, Record(bet, seed, outcome))
    ensures outcome.roll < bet.rollUnder ==>
      effects[0] == Transfer(account, bet.player, Asset(outcome.payout, bet.amount.symbol), "")
    ensures forall i :: 0 <= i < |effects| - 1 ==>
      && effects[i].Transfer? && effects[i].from == account && effects[i].memo == ""
      && (effects[i].to == bet.player || effects[i].to == bet.referrer)
    ensures forall i :: 0 <= i < |effects| - 1 && effects[i].to == bet.player ==>
      effects[i].quantity == Asset(outcome.payout, bet.amount.symbol)
    ensures forall i :: 0 <= i < |effects| - 1 && effects[i].to == bet.referrer ==>
      effects[i].quantity == Asset(ReferrerReward(bet.amount.amount), bet.amount.symbol)
    ensures (exists i :: 0 <= i < |effects| - 1 && effects[i].to == bet.player) <==> outcome.roll < bet.rollUnder
    ensures (exists i :: 0 <= i < |effects| - 1 && effects[i].to == bet.referrer) <==> bet.referrer != account
    ensures TransferredTo(effects, bet.player) == if outcome.roll < bet.rollUnder then outcome.payout else 0
    ensures TransferredTo(effects, bet.referrer)
         == if bet.referrer != account then ReferrerReward(bet.amount.amount) else 0
  {
    var win := if outcome.roll < bet.rollUnder
      then [Transfer(account, bet.player, Asset(outcome.payout, bet.amount.symbol), "")] else [];
    var fee := if bet.referrer != account
      then [Transfer(account, bet.referrer, Asset(ReferrerReward(bet.amount.amount), bet.amount.symbol), "")]
      else [];
    var log := [LogResult(logger, Record(bet, seed, outcome))];
    TransferredToAppend(win, fee, bet.player);
    TransferredToAppend(win + fee, log, bet.player);
    TransferredToAppend(win, fee, bet.referrer);
    TransferredToAppend(win + fee, log, bet.referrer);
    win + fee + log
  }

  /** A worked example: a 0.1000 EOS bet under 50 that rolls 20,
      with a referrer, pays min(2000, bonus ceiling) to the player and 5 to
      the referrer. */
  lemma WinningExample(account: Name, logger: Name, host: Host, bet: Bet, seed: Checksum, balance: int, locked: int)
    requires bet.WellFormed() && bet.player != account && bet.referrer != account
    requires bet.amount.amount == 1000 && bet.rollUnder == 50
    requires RandomRoll(host.uint64Hash(seed)) == 20 && locked <= balance
    ensures Settle(host, bet, seed, balance, locked).Ok?
    ensures var o := Settle(host, bet, seed, balance, locked).value;
      && o.payout == (if 2000 <= (balance - locked) / 100 then 2000 else (balance - locked) / 100)
      && TransferredTo(Effects(account, logger, bet, seed, o), bet.player) == o.payout
      && TransferredTo(Effects(account, logger, bet, seed, o), bet.referrer) == 5
  {
  }
}
