/** The emission schedule: a table-driven total against the per-block reward it is meant to add up. */
module Emission {
  import opened Division

  const BASE_REWARD: nat := 10_000_000_000
  const HALVING_INTERVAL: nat := 100_000
  const MAX_SUPPLY: nat := 600_000_000_000_000_000
  const MIN_REWARD: nat := 1
  const TWO_TO_THE_32: nat := 0x1_0000_0000

  /** A 64-bit score. */
  type Score = d: int | 0 <= d < 0x1_0000_0000_0000_0000

  /** Reward of each of the first 34 intervals, and the running sums of those rewards. */
  datatype Tables = Tables(rewards: seq<nat>, sums: seq<nat>)

  const HALVING_REWARDS: seq<nat> := [
    10000000000, 5000000000, 2500000000, 1250000000, 625000000, 312500000,
    156250000, 78125000, 39062500, 19531250, 9765625, 4882812, 2441406,
    1220703, 610351, 305175, 152587, 76293, 38146, 19073, 9536, 4768,
    2384, 1192, 596, 298, 149, 74, 37, 18, 9, 4, 2, 1
  ]

  const CUMULATIVE_REWARDS: seq<nat> := [
    10000000000, 15000000000, 17500000000, 18750000000, 19375000000,
    19687500000, 19843750000, 19921875000, 19960937500, 19980468750,
    19990234375, 19995117187, 19997558593, 19998779296, 19999389647,
    19999694822, 19999847409, 19999923702, 19999961848, 19999980921,
    19999990457, 19999995225, 19999997609, 19999998801, 19999999397,
    19999999695, 19999999844, 19999999918, 19999999955, 19999999973,
    19999999982, 19999999986, 19999999988, 19999999989
  ]

  const TABLES: Tables := Tables(HALVING_REWARDS, CUMULATIVE_REWARDS)

  function Min(a: int, b: int): int { if a < b then a else b }

  function Max(a: int, b: int): int { if a < b then b else a }

  /** The base reward halved `n` times, never below the minimum. */
  function Halved(n: nat): (r: nat)
    ensures MIN_REWARD <= r <= BASE_REWARD
  {
    if n == 0 then BASE_REWARD else Max(Halved(n - 1) / 2, MIN_REWARD)
  }

  function Pow2(n: nat): (r: nat)
    ensures r >= 1
  {
    if n == 0 then 1 else 2 * Pow2(n - 1)
  }

  lemma DivTwice(a: nat, b: nat)
    requires b > 0
    ensures a / b / 2 == a / (2 * b)
  {
    var s, t := a / b, a % b;
    var half := s / 2;
    Doubled(b, half);
    if s % 2 == 0 {
      assert s == 2 * half;
      QuotientIs(a, 2 * b, half, t);
    } else {
      assert s == 2 * half + 1;
      QuotientIs(a, 2 * b, half, b + t);
    }
  }

  lemma Doubled(b: int, half: int)
    ensures b * (2 * half) == 2 * b * half && b * (2 * half + 1) == 2 * b * half + b
  {
  }

  /** Iterated halving is one division, floored at the minimum. */
  lemma {:induction false} HalvedClosedForm(n: nat)
    ensures Halved(n) == Max(BASE_REWARD / Pow2(n), MIN_REWARD)
  {
    if n > 0 {
      HalvedClosedForm(n - 1);
      DivTwice(BASE_REWARD, Pow2(n - 1));
    }
  }

  lemma RewardSteps(i: nat)
    requires i < 33
    ensures HALVING_REWARDS[i + 1] == Max(HALVING_REWARDS[i] / 2, MIN_REWARD)
  {
  }

  lemma CumulativeSteps(i: nat)
    requires i < 33
    ensures CUMULATIVE_REWARDS[i + 1] == CUMULATIVE_REWARDS[i] + HALVING_REWARDS[i + 1]
  {
  }

  lemma RewardsAboveOne(i: nat)
    requires i < 34
    ensures HALVING_REWARDS[i] == 1 <==> i == 33
  {
  }

  lemma {:induction false} HalvesDown(table: seq<nat>, i: nat)
    requires i < |table| && table[0] == BASE_REWARD
    requires forall j | 0 < j < |table| :: table[j] == Max(table[j - 1] / 2, MIN_REWARD)
    ensures table[i] == Halved(i)
  {
    if i > 0 {
      HalvesDown(table, i - 1);
    }
  }

  lemma TableIsHalving(i: nat)
    requires i < 34
    ensures HALVING_REWARDS[i] == Halved(i)
  {
    forall j | 0 < j < 34
      ensures HALVING_REWARDS[j] == Max(HALVING_REWARDS[j - 1] / 2, MIN_REWARD)
    {
      RewardSteps(j - 1);
    }
    HalvesDown(HALVING_REWARDS, i);
  }

  lemma {:induction false} HalvedIsMinimal(n: nat)
    ensures Halved(n) == MIN_REWARD <==> n >= 33
  {
    if n < 34 {
      TableIsHalving(n);
      RewardsAboveOne(n);
    } else {
      HalvedIsMinimal(n - 1);
    }
  }

  // ----- the reward of one score

  /** The interval count is truncated to 32 bits and then capped at 128 halvings. */
  function Halvings(d: Score): nat {
    Min(d / HALVING_INTERVAL % TWO_TO_THE_32, 128)
  }

  function RawReward(d: Score): (r: nat)
    ensures MIN_REWARD <= r <= BASE_REWARD
  {
    Halved(d / HALVING_INTERVAL % TWO_TO_THE_32)
  }

  method RawBlockReward(d: Score) returns (reward: nat)
    ensures reward == RawReward(d)
  {
    if d == 0 {
      return BASE_REWARD;
    }
    var steps := Halvings(d);
    reward := BASE_REWARD;
    var i := 0;
    while i < steps
      invariant 0 <= i <= steps && reward == Halved(i)
      decreases steps - i
    {
      reward := Max(reward / 2, MIN_REWARD);
      i := i + 1;
      if reward == MIN_REWARD {
        break;
      }
    }
    reward := Max(reward, MIN_REWARD);
    HalvedEnough(d / HALVING_INTERVAL % TWO_TO_THE_32, i);
  }

  /** Neither the cap on the steps nor the early exit changes the result. */
  lemma HalvedEnough(n: nat, i: nat)
    requires i == Min(n, 128) || (i <= n && Halved(i) == MIN_REWARD)
    ensures Halved(i) == Halved(n)
  {
    HalvedIsMinimal(i);
    HalvedIsMinimal(n);
  }

  // ----- the total

  predicate Sized(t: Tables) {
    |t.rewards| == 34 && |t.sums| == 34
  }

  ghost predicate Tabulates(t: Tables) {
    Sized(t) && t.sums[0] == t.rewards[0] &&
    (forall i {:trigger t.rewards[i]} | 0 <= i < 34 :: t.rewards[i] == Halved(i)) &&
    forall i {:trigger t.rewards[i]} | 0 < i < 34 :: t.sums[i] == t.sums[i - 1] + t.rewards[i]
  }

  lemma RewardsAreHalvings()
    ensures forall i | 0 <= i < 34 :: HALVING_REWARDS[i] == Halved(i)
  {
    forall i | 0 <= i < 34
      ensures HALVING_REWARDS[i] == Halved(i)
    {
      TableIsHalving(i);
    }
  }

  lemma TablesAreRight()
    ensures Tabulates(TABLES) && TABLES.sums[33] == 19999999989
  {
    RewardsAreHalvings();
    forall i | 0 < i < 34
      ensures CUMULATIVE_REWARDS[i] == CUMULATIVE_REWARDS[i - 1] + HALVING_REWARDS[i]
    {
      CumulativeSteps(i - 1);
    }
  }

  /** Emitted by `full` whole intervals. */
  function FullEmitted(t: Tables, full: nat): nat
    requires Sized(t)
  {
    if full == 0 then 0
    else if full <= |t.rewards| then t.sums[full - 1] * HALVING_INTERVAL
    else t.sums[33] * HALVING_INTERVAL + (full - |t.rewards|) * MIN_REWARD * HALVING_INTERVAL
  }

  function NextReward(t: Tables, full: nat): nat
    requires Sized(t)
  {
    if full < |t.rewards| then t.rewards[full] else MIN_REWARD
  }

  /** The total before it is clamped to the cap. */
  function TableTotal(t: Tables, d: nat): nat
    requires Sized(t)
  {
    var full := d / HALVING_INTERVAL;
    FullEmitted(t, full) + d % HALVING_INTERVAL * NextReward(t, full)
  }

  function TotalEmitted(t: Tables, d: Score): (r: nat)
    requires Sized(t)
    ensures r <= MAX_SUPPLY
  {
    if d == 0 then 0 else Min(TableTotal(t, d), MAX_SUPPLY)
  }

  function CappedReward(t: Tables, d: Score): (r: nat)
    requires Sized(t)
    ensures TotalEmitted(t, d) + r <= MAX_SUPPLY && r <= BASE_REWARD
    ensures r == Min(RawReward(d), MAX_SUPPLY - TotalEmitted(t, d))
  {
    var current := TotalEmitted(t, d);
    if current >= MAX_SUPPLY then 0
    else if current + RawReward(d) > MAX_SUPPLY then MAX_SUPPLY - current
    else RawReward(d)
  }

  /** One unwrapped reward per score below `d`. */
  function Scheduled(d: nat): nat {
    if d == 0 then 0 else Scheduled(d - 1) + Halved((d - 1) / HALVING_INTERVAL)
  }

  lemma NextScore(d: nat)
    ensures if d % HALVING_INTERVAL + 1 < HALVING_INTERVAL
            then (d + 1) / HALVING_INTERVAL == d / HALVING_INTERVAL &&
                 (d + 1) % HALVING_INTERVAL == d % HALVING_INTERVAL + 1
            else (d + 1) / HALVING_INTERVAL == d / HALVING_INTERVAL + 1 && (d + 1) % HALVING_INTERVAL == 0
  {
  }

  lemma IntervalAdds(t: Tables, full: nat)
    requires Tabulates(t)
    ensures NextReward(t, full) == Halved(full)
    ensures FullEmitted(t, full + 1) == FullEmitted(t, full) + HALVING_INTERVAL * Halved(full)
  {
    HalvedIsMinimal(full);
  }

  /** One more score, inside an interval or across its end. */
  lemma OneMoreScore(d: nat, e0: nat, e1: nat, r0: nat, r1: nat)
    requires e1 == e0 + HALVING_INTERVAL * r0
    ensures
      var same := (d + 1) / HALVING_INTERVAL == d / HALVING_INTERVAL;
      (if same then e0 else e1) + (d + 1) % HALVING_INTERVAL * (if same then r0 else r1)
        == e0 + d % HALVING_INTERVAL * r0 + r0
  {
    NextScore(d);
    var done := d % HALVING_INTERVAL;
    assert (done + 1) * r0 == done * r0 + r0;
  }

  lemma TableAdvances(t: Tables, d: nat)
    requires Tabulates(t)
    ensures TableTotal(t, d + 1) == TableTotal(t, d) + Halved(d / HALVING_INTERVAL)
  {
    var full := d / HALVING_INTERVAL;
    NextScore(d);
    IntervalAdds(t, full);
    OneMoreScore(d, FullEmitted(t, full), FullEmitted(t, full + 1), NextReward(t, full), NextReward(t, full + 1));
  }

  lemma {:induction false} TableIsScheduled(t: Tables, d: nat)
    requires Tabulates(t)
    ensures TableTotal(t, d) == Scheduled(d)
    decreases d
  {
    if d > 0 {
      TableIsScheduled(t, d - 1);
      TableAdvances(t, d - 1);
    }
  }

  /** The closed form is the sum of the schedule, up to the cap. */
  lemma TotalIsScheduled(t: Tables, d: Score)
    requires Tabulates(t)
    ensures TotalEmitted(t, d) == Min(Scheduled(d), MAX_SUPPLY)
  {
    TableIsScheduled(t, d);
  }

  // ----- what is paid out against what is counted

  ghost function Counted(d: nat): (r: nat)
    ensures r <= MAX_SUPPLY
  {
    Min(Scheduled(d), MAX_SUPPLY)
  }

  /** The truncated reward, as far as the counted total leaves room for it. */
  ghost function Payable(d: nat): nat {
    Min(Halved(d / HALVING_INTERVAL % TWO_TO_THE_32), MAX_SUPPLY - Counted(d))
  }

  /** The code's two figures, free of tables. */
  lemma RewardMeans(t: Tables, d: Score)
    requires Tabulates(t)
    ensures TotalEmitted(t, d) == Counted(d) && CappedReward(t, d) == Payable(d)
  {
    TotalIsScheduled(t, d);
  }

  /** The truncated interval count still gives the scheduled reward. */
  predicate RewardIsExact(d: nat) {
    d / HALVING_INTERVAL < TWO_TO_THE_32 || d / HALVING_INTERVAL % TWO_TO_THE_32 >= 33
  }

  lemma PayableStep(d: nat)
    ensures Counted(d + 1) == Counted(d) + Payable(d) <==> RewardIsExact(d) || Counted(d) + 1 >= MAX_SUPPLY
    ensures Counted(d + 1) <= Counted(d) + Payable(d)
  {
    HalvedIsMinimal(d / HALVING_INTERVAL);
    HalvedIsMinimal(d / HALVING_INTERVAL % TWO_TO_THE_32);
  }

  /** The counted total advances by exactly the reward paid if and only if the truncation did no harm, or at most one
      unit was left to issue; and it never advances by more. */
  lemma StepIsCounted(t: Tables, d: Score)
    requires Tabulates(t) && d + 1 < 0x1_0000_0000_0000_0000
    ensures TotalEmitted(t, d + 1) == TotalEmitted(t, d) + CappedReward(t, d) <==>
      RewardIsExact(d) || TotalEmitted(t, d) + 1 >= MAX_SUPPLY
    ensures TotalEmitted(t, d + 1) <= TotalEmitted(t, d) + CappedReward(t, d)
  {
    RewardMeans(t, d);
    RewardMeans(t, d + 1);
    PayableStep(d);
  }

  /** Everything paid for the scores below `d`. */
  ghost function Paid(t: Tables, d: Score): nat
    requires Sized(t)
  {
    if d == 0 then 0 else Paid(t, d - 1) + CappedReward(t, d - 1)
  }

  ghost function Payments(d: nat): nat {
    if d == 0 then 0 else Payments(d - 1) + Payable(d - 1)
  }

  lemma {:induction false} PaidMeans(t: Tables, d: Score)
    requires Tabulates(t)
    ensures Paid(t, d) == Payments(d)
    decreases d
  {
    if d > 0 {
      PaidMeans(t, d - 1);
      RewardMeans(t, d - 1);
    }
  }

  /** The first score at which the interval count no longer fits 32 bits. */
  const WRAP: nat := 0x1_0000_0000 * 100_000

  lemma {:induction false} ScheduledGrows(d: nat, e: nat)
    requires d <= e
    ensures Scheduled(d) <= Scheduled(e)
    decreases e - d
  {
    if d < e {
      ScheduledGrows(d, e - 1);
    }
  }

  lemma PastTables(t: Tables, d: nat)
    requires Sized(t) && d >= 34 * HALVING_INTERVAL
    ensures TableTotal(t, d) == t.sums[33] * HALVING_INTERVAL + (d - 34 * HALVING_INTERVAL)
  {
    assert d / HALVING_INTERVAL >= 34;
  }

  lemma BoundFrom(t: Tables, d: nat)
    requires Tabulates(t)
    ensures Scheduled(d) <= t.sums[33] * HALVING_INTERVAL + d
  {
    var first := 34 * HALVING_INTERVAL;
    if d < first {
      ScheduledGrows(d, first);
      TableIsScheduled(t, first);
      assert TableTotal(t, first) == t.sums[33] * HALVING_INTERVAL;
    } else {
      TableIsScheduled(t, d);
      PastTables(t, d);
    }
  }

  lemma ScheduledBound(d: nat)
    ensures Scheduled(d) <= 19999999989 * HALVING_INTERVAL + d
  {
    TablesAreRight();
    BoundFrom(TABLES, d);
  }

  lemma {:induction false} PaymentsBeforeWrap(d: nat)
    requires d <= WRAP
    ensures Payments(d) == Counted(d)
    decreases d
  {
    if d > 0 {
      PaymentsBeforeWrap(d - 1);
      PayableStep(d - 1);
    }
  }

  lemma FirstOverpayment(d: nat)
    requires d == WRAP
    ensures Counted(d + 1) < Counted(d) + Payable(d)
  {
    ScheduledBound(d);
    assert d / HALVING_INTERVAL == TWO_TO_THE_32;
    PayableStep(d);
  }

  lemma {:induction false} PaymentsAfterWrap(d: nat)
    requires d > WRAP
    ensures Payments(d) > Counted(d)
    decreases d
  {
    if d == WRAP + 1 {
      PaymentsBeforeWrap(d - 1);
      FirstOverpayment(d - 1);
    } else {
      PaymentsAfterWrap(d - 1);
      PayableStep(d - 1);
    }
  }

  /** The sum of the rewards paid is the counted total, and so within the cap, exactly up to the wrap. */
  lemma PaidIsCounted(t: Tables, d: Score)
    requires Tabulates(t)
    ensures Paid(t, d) == TotalEmitted(t, d) <==> d <= WRAP
    ensures d <= WRAP ==> Paid(t, d) <= MAX_SUPPLY
  {
    PaidMeans(t, d);
    RewardMeans(t, d);
    if d <= WRAP {
      PaymentsBeforeWrap(d);
    } else {
      PaymentsAfterWrap(d);
    }
  }

  lemma {:induction false} PaymentsGrow(d: nat, e: nat)
    requires d <= e
    ensures Payments(d) <= Payments(e)
    decreases e - d
  {
    if d < e {
      PaymentsGrow(d, e - 1);
    }
  }

  lemma PlaceInRound(d: nat)
    ensures d / HALVING_INTERVAL % TWO_TO_THE_32 == d % WRAP / HALVING_INTERVAL
  {
    var q, r := d / WRAP, d % WRAP;
    var i, left := r / HALVING_INTERVAL, r % HALVING_INTERVAL;
    assert d == HALVING_INTERVAL * (TWO_TO_THE_32 * q + i) + left;
    assert d / HALVING_INTERVAL == TWO_TO_THE_32 * q + i;
  }

  lemma NextInRound(d: nat)
    ensures
      if d % WRAP + 1 < WRAP then (d + 1) / WRAP == d / WRAP && (d + 1) % WRAP == d % WRAP + 1
      else (d + 1) / WRAP == d / WRAP + 1 && (d + 1) % WRAP == 0
  {
  }

  /** Before the counted total comes near the cap, a score pays what its place in the round of 2^32 intervals pays. */
  lemma PayableInRound(d: nat)
    requires d < 601 * WRAP
    ensures Payable(d) == Halved(d % WRAP / HALVING_INTERVAL)
  {
    ScheduledBound(d);
    PlaceInRound(d);
  }

  /** What `q` whole rounds, at `perRound` each, and `r` scores of one more pay. */
  ghost function InRounds(q: nat, r: nat, perRound: nat): nat {
    q * perRound + Scheduled(r)
  }

  lemma SameRound(q: nat, r: nat, perRound: nat)
    ensures InRounds(q, r + 1, perRound) == InRounds(q, r, perRound) + Halved(r / HALVING_INTERVAL)
  {
  }

  lemma NewRound(q: nat, r: nat, perRound: nat)
    requires perRound == Scheduled(r + 1)
    ensures InRounds(q + 1, 0, perRound) == InRounds(q, r, perRound) + Halved(r / HALVING_INTERVAL)
  {
    assert (q + 1) * perRound == q * perRound + perRound;
  }

  ghost function RoundsPay(d: nat, perRound: nat): nat {
    InRounds(d / WRAP, d % WRAP, perRound)
  }

  lemma RoundsPayNext(d: nat, wrap: nat)
    requires wrap == WRAP
    ensures RoundsPay(d + 1, Scheduled(wrap)) == RoundsPay(d, Scheduled(wrap)) + Halved(d % WRAP / HALVING_INTERVAL)
  {
    NextInRound(d);
    if d % WRAP + 1 < WRAP {
      SameRound(d / WRAP, d % WRAP, Scheduled(wrap));
    } else {
      NewRound(d / WRAP, d % WRAP, Scheduled(wrap));
    }
  }

  lemma OneMorePayment(d: nat, wrap: nat)
    requires wrap == WRAP && d < 601 * WRAP
    ensures RoundsPay(d + 1, Scheduled(wrap)) - RoundsPay(d, Scheduled(wrap)) == Payments(d + 1) - Payments(d)
  {
    PayableInRound(d);
    RoundsPayNext(d, wrap);
  }

  lemma {:induction false} SameIncrements(f: nat -> int, g: nat -> int, n: nat)
    requires f(0) == g(0) && forall i: nat {:trigger f(i)} | i < n :: f(i + 1) - f(i) == g(i + 1) - g(i)
    ensures f(n) == g(n)
    decreases n
  {
    if n > 0 {
      SameIncrements(f, g, n - 1);
      assert f(n - 1 + 1) - f(n - 1) == g(n - 1 + 1) - g(n - 1);
    }
  }

  lemma PaymentsInRounds(d: nat, wrap: nat)
    requires wrap == WRAP && d <= 601 * WRAP
    ensures Payments(d) == RoundsPay(d, Scheduled(wrap))
  {
    var f: nat -> int, g: nat -> int := (i: nat) => RoundsPay(i, Scheduled(wrap)), (i: nat) => Payments(i);
    forall i: nat | i < d
      ensures f(i + 1) - f(i) == g(i + 1) - g(i)
    {
      OneMorePayment(i, wrap);
    }
    SameIncrements(f, g, d);
  }

  /** Past the tables every score pays one unit. */
  lemma ScheduledPastTables(d: nat)
    requires d >= 34 * HALVING_INTERVAL
    ensures Scheduled(d) == 1_999_999_998_900_000 + (d - 34 * HALVING_INTERVAL)
  {
    TablesAreRight();
    TableIsScheduled(TABLES, d);
    PastTables(TABLES, d);
  }

  /** The last score up to which the rewards paid fit the cap: 246 whole rounds of 2^32 intervals and part of one more,
      the base reward returning at the start of each. */
  const LAST_WITHIN_CAP: nat := 246 * WRAP + 343_805_629_900_000

  lemma RoundsAtLast(d: nat, perRound: nat)
    requires LAST_WITHIN_CAP <= d <= LAST_WITHIN_CAP + 1
    ensures RoundsPay(d, perRound) == 246 * perRound + Scheduled(d - 246 * WRAP)
  {
    QuotientIs(d, WRAP, 246, d - 246 * WRAP);
    assert d % WRAP == d - 246 * WRAP;
  }

  lemma PaymentsAtLast(d: nat, wrap: nat)
    requires wrap == WRAP && LAST_WITHIN_CAP <= d <= LAST_WITHIN_CAP + 1
    ensures Payments(d) == MAX_SUPPLY + (d - LAST_WITHIN_CAP)
  {
    PaymentsInRounds(d, wrap);
    RoundsAtLast(d, Scheduled(wrap));
    ScheduledPastTables(wrap);
    ScheduledPastTables(d - 246 * WRAP);
  }

  /** Issuance stays within the cap exactly up to that score. */
  lemma IssuanceWithinCap(t: Tables, d: Score)
    requires Tabulates(t)
    ensures Paid(t, d) <= MAX_SUPPLY <==> d <= LAST_WITHIN_CAP
  {
    PaidMeans(t, d);
    if d <= LAST_WITHIN_CAP {
      PaymentsAtLast(LAST_WITHIN_CAP, WRAP);
      PaymentsGrow(d, LAST_WITHIN_CAP);
    } else {
      PaymentsAtLast(LAST_WITHIN_CAP + 1, WRAP);
      PaymentsGrow(LAST_WITHIN_CAP + 1, d);
    }
  }

  /** The cap on the counted total does not cap what is paid: at that score exactly the cap has been paid, and the next
      one, a 64-bit number too, is past it. */
  lemma PaidCanExceedTheCap(t: Tables)
    requires Tabulates(t)
    ensures Paid(t, LAST_WITHIN_CAP) == MAX_SUPPLY && Paid(t, LAST_WITHIN_CAP + 1) == MAX_SUPPLY + 1
  {
    PaidMeans(t, LAST_WITHIN_CAP);
    PaidMeans(t, LAST_WITHIN_CAP + 1);
    PaymentsAtLast(LAST_WITHIN_CAP, WRAP);
    PaymentsAtLast(LAST_WITHIN_CAP + 1, WRAP);
  }

  // ----- the split

  datatype Split = Split(miner: nat, infrastructure: nat, perNode: nat)

  /** Nothing is lost between miner and infrastructure, the miner's share is 80% rounded down, and the nodes' equal
      shares are as large as the infrastructure part allows. */
  function SplitReward(total: nat, nodes: nat): (r: Split)
    ensures r.miner + r.infrastructure == total
    ensures nodes == 0 ==> r.infrastructure == 0
    ensures nodes > 0 ==> 5 * r.miner <= 4 * total < 5 * r.miner + 5
    ensures nodes > 0 ==> r.perNode * nodes <= r.infrastructure < (r.perNode + 1) * nodes
  {
    if nodes == 0 then Split(total, 0, 0)
    else
      var miner := total * 80 / 100;
      var infrastructure := total - miner;
      Split(miner, infrastructure, infrastructure / nodes)
  }

  /** Every amount fits the 64 bits it is cast to. */
  function BlockReward(t: Tables, d: Score, nodes: nat): (r: Split)
    requires Sized(t)
    ensures r.miner + r.infrastructure == CappedReward(t, d) <= BASE_REWARD
  {
    SplitReward(CappedReward(t, d), nodes)
  }
}
