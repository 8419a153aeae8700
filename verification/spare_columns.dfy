/** `split_spare_columns`: capped proportional water-filling of the spare
    terminal columns among the table's columns.

    Columns are identified by their position. A column of weight zero is
    locked at zero extra. The others share the spare amount in proportion to
    their weights; a column with a non-zero cap whose floored share reaches
    that cap is "saturated": it gets the cap itself and leaves the
    distribution, taking its cap out of the remaining amount and its weight
    out of the denominator. Saturation is re-checked until a pass leaves the
    remaining amount unchanged; the columns still flexible then get their
    floored share, and what flooring loses is left unassigned. */
module SpareColumns {
  import opened Sums

  /** `math.floor(amount / denominator * weight)`, on exact reals. */
  function Share(amount: int, denominator: real, weight: real): (share: int)
    requires denominator != 0.0
  {
    (amount as real / denominator * weight).Floor
  }

  /** The state of the saturation loop: the columns still in
      `cols_remaining`, `amount_remaining` and the running `denominator`. */
  datatype Pass = Pass(flexible: seq<bool>, remaining: int, denominator: real)

  /** The weights of the columns in `mask`, zero elsewhere. */
  function MaskedWeights(weights: seq<real>, mask: seq<bool>): (r: seq<real>)
    requires |mask| == |weights|
    ensures |r| == |weights|
    ensures forall i :: 0 <= i < |r| ==> r[i] == if mask[i] then weights[i] else 0.0
  {
    seq(|mask|, i requires 0 <= i < |mask| => if mask[i] then weights[i] else 0.0)
  }

  /** The caps of the columns in `mask`, zero elsewhere. */
  function MaskedCaps(maxes: seq<nat>, mask: seq<bool>): (r: seq<int>)
    requires |mask| == |maxes|
    ensures |r| == |maxes|
    ensures forall i :: 0 <= i < |r| ==> r[i] == if mask[i] then maxes[i] else 0
  {
    seq(|mask|, i requires 0 <= i < |mask| => if mask[i] then maxes[i] else 0)
  }

  /** The columns of `before` that are no longer in `after`. */
  function Dropped(before: seq<bool>, after: seq<bool>): (r: seq<bool>)
    requires |before| == |after|
    ensures |r| == |before|
    ensures forall i :: 0 <= i < |r| ==> (r[i] <==> before[i] && !after[i])
  {
    seq(|before|, i requires 0 <= i < |before| => before[i] && !after[i])
  }

  /** Number of columns in a mask. */
  function Count(mask: seq<bool>): (n: nat)
  {
    if mask == [] then 0 else Count(mask[..|mask| - 1]) + (if mask[|mask| - 1] then 1 else 0)
  }

  /** Removing at least one column from a mask makes it strictly smaller. */
  lemma {:induction false} CountShrinks(small: seq<bool>, big: seq<bool>, j: int)
    requires |small| == |big|
    requires forall i :: 0 <= i < |small| && small[i] ==> big[i]
    requires 0 <= j < |big| && big[j] && !small[j]
    ensures Count(small) < Count(big)
  {
    var k := |big| - 1;
    if j < k {
      CountShrinks(small[..k], big[..k], j);
    } else {
      CountMonotone(small[..k], big[..k]);
    }
  }

  lemma {:induction false} CountMonotone(small: seq<bool>, big: seq<bool>)
    requires |small| == |big|
    requires forall i :: 0 <= i < |small| && small[i] ==> big[i]
    ensures Count(small) <= Count(big)
  {
    if small != [] {
      var k := |big| - 1;
      CountMonotone(small[..k], big[..k]);
    }
  }

  /** What every loop state keeps: flexible columns have positive weight,
      and the running denominator is the total weight of the flexible
      columns (so it is positive whenever a column is flexible). */
  predicate Valid(weights: seq<real>, maxes: seq<nat>, s: Pass)
  {
    && |weights| == |maxes| == |s.flexible|
    && (forall i :: 0 <= i < |weights| ==> weights[i] >= 0.0)
    && (forall i :: 0 <= i < |weights| && s.flexible[i] ==> 0.0 < weights[i] <= s.denominator)
    && s.denominator == SumReal(MaskedWeights(weights, s.flexible))
  }

  /** A flexible column with a cap whose floored share reaches the cap. A cap
      of zero means "no cap" and never saturates. */
  predicate Saturates(weights: seq<real>, maxes: seq<nat>, s: Pass, i: int)
    requires Valid(weights, maxes, s)
    requires 0 <= i < |weights|
  {
    s.flexible[i] && maxes[i] != 0 && Share(s.remaining, s.denominator, weights[i]) >= maxes[i]
  }

  /** Some column is still in the distribution. */
  predicate AnyFlexible(s: Pass)
  {
    exists j :: 0 <= j < |s.flexible| && s.flexible[j]
  }

  /** The water level of a state: the remaining amount per unit of weight
      still in the distribution. */
  function Level(s: Pass): (level: real)
    requires s.denominator > 0.0
  {
    s.remaining as real / s.denominator
  }

  /** A state with a flexible column has a positive denominator. */
  lemma FlexibleDenominator(weights: seq<real>, maxes: seq<nat>, s: Pass)
    requires Valid(weights, maxes, s)
    ensures AnyFlexible(s) ==> s.denominator > 0.0
  {
  }

  /** `to_complete`: every column one pass saturates, each judged against the
      same remaining amount and denominator. */
  function Saturated(weights: seq<real>, maxes: seq<nat>, s: Pass): (sat: seq<bool>)
    requires Valid(weights, maxes, s)
    ensures |sat| == |weights|
    ensures forall i :: 0 <= i < |sat| ==> (sat[i] <==> Saturates(weights, maxes, s, i))
  {
    seq(|weights|, i requires 0 <= i < |weights| => Saturates(weights, maxes, s, i))
  }

  /** Saturated columns take no more than the remaining amount: each one's cap
      is at most its share, and the shares of a set of flexible columns add up
      to at most the remaining amount. */
  lemma SaturatedWithinRemaining(weights: seq<real>, maxes: seq<nat>, s: Pass)
    requires Valid(weights, maxes, s)
    ensures s.remaining >= 0 ==> SumInt(MaskedCaps(maxes, Saturated(weights, maxes, s))) <= s.remaining
  {
    if s.remaining >= 0 {
      SaturatedWithinRemainingNonNeg(weights, maxes, s);
    }
  }

  lemma SaturatedWithinRemainingNonNeg(weights: seq<real>, maxes: seq<nat>, s: Pass)
    requires Valid(weights, maxes, s)
    requires s.remaining >= 0
    ensures SumInt(MaskedCaps(maxes, Saturated(weights, maxes, s))) <= s.remaining
  {
    var sat := Saturated(weights, maxes, s);
    var caps := MaskedCaps(maxes, sat);
    var n := |weights|;
    if exists j :: 0 <= j < n && sat[j] {
      var d := s.denominator;
      var ratio := s.remaining as real / d;
      var satW := MaskedWeights(weights, sat);
      SaturatedCapsBelowShares(weights, maxes, s, ratio);
      CapSumBound(caps, satW, MaskedWeights(weights, s.flexible), ratio, s.remaining, d);
    } else {
      SumIntZero(caps);
    }
  }

  /** A saturated column's cap is at most its unfloored share. */
  lemma SaturatedCapsBelowShares(weights: seq<real>, maxes: seq<nat>, s: Pass, ratio: real)
    requires Valid(weights, maxes, s)
    requires s.denominator > 0.0 && ratio == s.remaining as real / s.denominator
    ensures var caps := MaskedCaps(maxes, Saturated(weights, maxes, s));
      var satW := MaskedWeights(weights, Saturated(weights, maxes, s));
      forall i :: 0 <= i < |weights| ==> caps[i] as real <= ratio * satW[i]
  {
    var sat := Saturated(weights, maxes, s);
    forall i | 0 <= i < |weights| && sat[i]
      ensures maxes[i] as real <= ratio * weights[i]
    {
      var x := s.remaining as real / s.denominator * weights[i];
      assert x.Floor >= maxes[i];
      assert x.Floor as real <= x;
    }
  }

  /** Caps bounded by proportional shares of part of the denominator add up to
      at most the amount being shared. */
  lemma CapSumBound(caps: seq<int>, part: seq<real>, whole: seq<real>, ratio: real, x: int, d: real)
    requires |caps| == |part| == |whole|
    requires forall i :: 0 <= i < |caps| ==> caps[i] as real <= ratio * part[i]
    requires forall i :: 0 <= i < |caps| ==> 0.0 <= part[i] <= whole[i]
    requires x >= 0 && d > 0.0 && SumReal(whole) == d
    requires ratio == x as real / d
    ensures SumInt(caps) <= x
  {
    CapSumScaled(caps, part, ratio);
    SumRealLe(part, whole);
    SumRealNonNegative(part);
    ScaledBound(SumInt(caps), SumReal(part), ratio, x, d);
  }

  /** A total bounded by the proportional share of part of the denominator
      is at most the amount being shared. */
  lemma ScaledBound(c: int, p: real, ratio: real, x: int, d: real)
    requires x >= 0 && d > 0.0 && 0.0 <= p <= d
    requires ratio == x as real / d
    requires c as real <= ratio * p
    ensures c <= x
  {
    RatioTimesPart(x, d, ratio, p, ratio * p);
  }

  lemma CapSumScaled(caps: seq<int>, part: seq<real>, ratio: real)
    requires |caps| == |part|
    requires forall i :: 0 <= i < |caps| ==> caps[i] as real <= ratio * part[i]
    ensures SumInt(caps) as real <= ratio * SumReal(part)
  {
    var n := |caps|;
    var capsR := seq(n, i requires 0 <= i < n => caps[i] as real);
    var shares := seq(n, i requires 0 <= i < n => ratio * part[i]);
    assert forall i :: 0 <= i < n ==> shares[i] == ratio * part[i];
    SumRealScale(ratio, part, shares);
    SumIntAsReal(caps, capsR);
    SumRealLe(capsR, shares);
  }

  /** `x / d * part <= x` for `0 <= part <= d`. */
  lemma RatioTimesPart(x: int, d: real, ratio: real, part: real, total: real)
    requires x >= 0 && d > 0.0 && 0.0 <= part <= d
    requires ratio == x as real / d
    requires total == ratio * part
    ensures total <= x as real
  {
    assert ratio >= 0.0;
    assert ratio * part <= ratio * d;
    assert ratio * d == x as real;
  }

  /** One pass of the saturation loop: the columns of `to_complete` all get
      their cap and leave, their caps and weights leave the remaining amount
      and the denominator. */
  function Step(weights: seq<real>, maxes: seq<nat>, s: Pass): (next: Pass)
    requires Valid(weights, maxes, s)
    ensures Valid(weights, maxes, next)
    ensures forall i :: 0 <= i < |weights| ==>
      (next.flexible[i] <==> s.flexible[i] && !Saturates(weights, maxes, s, i))
    ensures next.remaining == s.remaining - SumInt(MaskedCaps(maxes, Saturated(weights, maxes, s)))
    ensures next.denominator == s.denominator - SumReal(MaskedWeights(weights, Saturated(weights, maxes, s)))
    ensures s.remaining >= 0 ==> next.remaining >= 0
    ensures next.remaining == s.remaining ==> next == s
    ensures next.remaining != s.remaining ==> Count(next.flexible) < Count(s.flexible)
  {
    var n := |weights|;
    var sat := Saturated(weights, maxes, s);
    var flexible := seq(n, i requires 0 <= i < n => s.flexible[i] && !sat[i]);
    var next := Pass(flexible,
                     s.remaining - SumInt(MaskedCaps(maxes, sat)),
                     s.denominator - SumReal(MaskedWeights(weights, sat)));
    StepKeepsValid(weights, maxes, s, sat, next);
    SaturatedWithinRemaining(weights, maxes, s);
    StepUnchangedIsIdle(weights, maxes, s, sat, next);
    next
  }

  lemma StepKeepsValid(weights: seq<real>, maxes: seq<nat>, s: Pass, sat: seq<bool>, next: Pass)
    requires Valid(weights, maxes, s)
    requires sat == Saturated(weights, maxes, s)
    requires |next.flexible| == |weights|
    requires forall i :: 0 <= i < |weights| ==> next.flexible[i] == (s.flexible[i] && !sat[i])
    requires next.denominator == s.denominator - SumReal(MaskedWeights(weights, sat))
    ensures Valid(weights, maxes, next)
  {
    var n := |weights|;
    var kept := MaskedWeights(weights, next.flexible);
    SumRealAdd(MaskedWeights(weights, sat), kept, MaskedWeights(weights, s.flexible));
    forall j | 0 <= j < n && next.flexible[j]
      ensures weights[j] <= next.denominator
    {
      SumRealBoundsTerm(kept, j);
    }
  }

  lemma StepUnchangedIsIdle(weights: seq<real>, maxes: seq<nat>, s: Pass, sat: seq<bool>, next: Pass)
    requires Valid(weights, maxes, s)
    requires sat == Saturated(weights, maxes, s)
    requires |next.flexible| == |weights|
    requires forall i :: 0 <= i < |weights| ==> next.flexible[i] == (s.flexible[i] && !sat[i])
    requires next.remaining == s.remaining - SumInt(MaskedCaps(maxes, sat))
    requires next.denominator == s.denominator - SumReal(MaskedWeights(weights, sat))
    ensures next.remaining == s.remaining ==> next == s
    ensures next.remaining != s.remaining ==> Count(next.flexible) < Count(s.flexible)
  {
    var n := |weights|;
    if exists j :: 0 <= j < n && sat[j] {
      var j :| 0 <= j < n && sat[j];
      SumIntBoundsTerm(MaskedCaps(maxes, sat), j);
      CountShrinks(next.flexible, s.flexible, j);
    } else {
      SumIntZero(MaskedCaps(maxes, sat));
      SumRealZero(MaskedWeights(weights, sat));
      assert next.flexible == s.flexible;
    }
  }

  /** A pass never lowers the water level: each saturated column's cap is at
      most its unfloored share at the old level, so taking the caps and the
      weights out leaves at least as much per unit of weight for the rest. */
  lemma StepRaisesLevel(weights: seq<real>, maxes: seq<nat>, s: Pass, next: Pass)
    requires Valid(weights, maxes, s)
    requires s.denominator > 0.0 && next.denominator > 0.0
    requires next.remaining == s.remaining - SumInt(MaskedCaps(maxes, Saturated(weights, maxes, s)))
    requires next.denominator == s.denominator - SumReal(MaskedWeights(weights, Saturated(weights, maxes, s)))
    ensures Level(s) <= Level(next)
  {
    var sat := Saturated(weights, maxes, s);
    SaturatedWithinLevel(weights, maxes, s);
    LevelRises(s, next, SumInt(MaskedCaps(maxes, sat)), SumReal(MaskedWeights(weights, sat)));
  }

  /** The saturated columns' caps add up to at most the level's share of
      their weights. */
  lemma SaturatedWithinLevel(weights: seq<real>, maxes: seq<nat>, s: Pass)
    requires Valid(weights, maxes, s) && s.denominator > 0.0
    ensures var sat := Saturated(weights, maxes, s);
      SumInt(MaskedCaps(maxes, sat)) as real <= s.remaining as real / s.denominator * SumReal(MaskedWeights(weights, sat))
  {
    var sat := Saturated(weights, maxes, s);
    var ratio := Level(s);
    SaturatedCapsBelowShares(weights, maxes, s, ratio);
    CapSumScaled(MaskedCaps(maxes, sat), MaskedWeights(weights, sat), ratio);
  }

  /** Taking out an amount `c` no larger than the level's share of the weight
      `p` leaves the level at least where it was. */
  lemma LevelRises(s: Pass, next: Pass, c: int, p: real)
    requires s.denominator > 0.0 && next.denominator > 0.0
    requires next.remaining == s.remaining - c && next.denominator == s.denominator - p
    requires c as real <= s.remaining as real / s.denominator * p
    ensures Level(s) <= Level(next)
  {
    var ratio := Level(s);
    assert ratio * s.denominator == s.remaining as real;
    assert ratio * next.denominator <= next.remaining as real;
  }

  /** A higher level never gives a column a smaller floored share. */
  lemma ShareMonotone(a: Pass, b: Pass, weight: real)
    requires a.denominator > 0.0 && b.denominator > 0.0
    requires Level(a) <= Level(b) && weight >= 0.0
    ensures Share(a.remaining, a.denominator, weight) <= Share(b.remaining, b.denominator, weight)
  {
    assert Level(a) * weight <= Level(b) * weight;
  }

  /** The water-filling property of a run of passes from `s` to `r`: as long
      as some column is still in the distribution at `r`, the level has not
      fallen, and every column that left on the way would still reach its
      cap with its floored share at the final level. */
  predicate RaisedTo(weights: seq<real>, maxes: seq<nat>, s: Pass, r: Pass)
    requires Valid(weights, maxes, s) && Valid(weights, maxes, r)
  {
    AnyFlexible(r) ==>
      && s.denominator > 0.0 && r.denominator > 0.0
      && Level(s) <= Level(r)
      && forall i :: 0 <= i < |weights| && s.flexible[i] && !r.flexible[i] ==>
           maxes[i] <= Share(r.remaining, r.denominator, weights[i])
  }

  /** One more pass in front of a run keeps the water-filling property. */
  lemma RaisedToStep(weights: seq<real>, maxes: seq<nat>, s: Pass, r: Pass)
    requires Valid(weights, maxes, s) && Valid(weights, maxes, r)
    requires forall i :: 0 <= i < |weights| && r.flexible[i] ==> Step(weights, maxes, s).flexible[i]
    requires RaisedTo(weights, maxes, Step(weights, maxes, s), r)
    ensures RaisedTo(weights, maxes, s, r)
  {
    var next := Step(weights, maxes, s);
    if AnyFlexible(r) {
      var j :| 0 <= j < |r.flexible| && r.flexible[j];
      assert next.flexible[j] && s.flexible[j];
      FlexibleDenominator(weights, maxes, next);
      StepRaisesLevel(weights, maxes, s, next);
      forall i | 0 <= i < |weights| && s.flexible[i] && !r.flexible[i]
        ensures maxes[i] <= Share(r.remaining, r.denominator, weights[i])
      {
        if !next.flexible[i] {
          ShareMonotone(s, r, weights[i]);
        }
      }
    }
  }

  /** The `while old_amount != amount_remaining` loop: passes repeat until one
      leaves the remaining amount unchanged. The result is a fixed point: no
      flexible column saturates any more; the columns that left the
      distribution all had a real cap, and each would still reach it at the
      final level (`RaisedTo`); and exactly their caps were taken out of the
      remaining amount, which stays non-negative when it started so. */
  function Settle(weights: seq<real>, maxes: seq<nat>, s: Pass): (r: Pass)
    requires Valid(weights, maxes, s)
    ensures Valid(weights, maxes, r)
    ensures forall i :: 0 <= i < |weights| && r.flexible[i] ==> s.flexible[i]
    ensures forall i :: 0 <= i < |weights| ==> !Saturates(weights, maxes, r, i)
    ensures forall i :: 0 <= i < |weights| && s.flexible[i] && !r.flexible[i] ==> maxes[i] != 0
    ensures r.remaining == s.remaining - SumInt(MaskedCaps(maxes, Dropped(s.flexible, r.flexible)))
    ensures s.remaining >= 0 ==> r.remaining >= 0
    ensures RaisedTo(weights, maxes, s, r)
    decreases Count(s.flexible)
  {
    var next := Step(weights, maxes, s);
    if next.remaining == s.remaining then
      SettleIdle(weights, maxes, s);
      next
    else
      var r := Settle(weights, maxes, next);
      SettleExtend(weights, maxes, s, r);
      r
  }

  /** A pass that leaves the amount unchanged ends the loop where it began. */
  lemma SettleIdle(weights: seq<real>, maxes: seq<nat>, s: Pass)
    requires Valid(weights, maxes, s)
    requires Step(weights, maxes, s).remaining == s.remaining
    ensures Step(weights, maxes, s) == s
    ensures forall i :: 0 <= i < |weights| ==> !Saturates(weights, maxes, s, i)
    ensures SumInt(MaskedCaps(maxes, Dropped(s.flexible, s.flexible))) == 0
    ensures RaisedTo(weights, maxes, s, s)
  {
    SumIntZero(MaskedCaps(maxes, Dropped(s.flexible, s.flexible)));
    FlexibleDenominator(weights, maxes, s);
  }

  /** What a run of passes from the next state promises carries over to a
      run that starts one pass earlier. */
  lemma SettleExtend(weights: seq<real>, maxes: seq<nat>, s: Pass, r: Pass)
    requires Valid(weights, maxes, s) && Valid(weights, maxes, r)
    requires var next := Step(weights, maxes, s);
      && (forall i :: 0 <= i < |weights| && r.flexible[i] ==> next.flexible[i])
      && (forall i :: 0 <= i < |weights| && next.flexible[i] && !r.flexible[i] ==> maxes[i] != 0)
      && r.remaining == next.remaining - SumInt(MaskedCaps(maxes, Dropped(next.flexible, r.flexible)))
      && RaisedTo(weights, maxes, next, r)
    ensures forall i :: 0 <= i < |weights| && r.flexible[i] ==> s.flexible[i]
    ensures forall i :: 0 <= i < |weights| && s.flexible[i] && !r.flexible[i] ==> maxes[i] != 0
    ensures r.remaining == s.remaining - SumInt(MaskedCaps(maxes, Dropped(s.flexible, r.flexible)))
    ensures RaisedTo(weights, maxes, s, r)
  {
    var next := Step(weights, maxes, s);
    RaisedToStep(weights, maxes, s, r);
    SumIntAdd(MaskedCaps(maxes, Saturated(weights, maxes, s)),
              MaskedCaps(maxes, Dropped(next.flexible, r.flexible)),
              MaskedCaps(maxes, Dropped(s.flexible, r.flexible)));
  }

  /** A state where no column saturates is already the fixed point. */
  lemma SettleAtFixedPoint(weights: seq<real>, maxes: seq<nat>, s: Pass)
    requires Valid(weights, maxes, s)
    requires forall i :: 0 <= i < |weights| ==> !Saturates(weights, maxes, s, i)
    ensures Settle(weights, maxes, s) == s
  {
    var sat := Saturated(weights, maxes, s);
    SumIntZero(MaskedCaps(maxes, sat));
  }

  /** The state before the loop: every column of non-zero weight is flexible,
      the whole amount remains, and the denominator is `sum(weights.values())`. */
  function Start(amount: int, weights: seq<real>, maxes: seq<nat>): (s: Pass)
    requires |weights| == |maxes|
    requires forall i :: 0 <= i < |weights| ==> weights[i] >= 0.0
    ensures Valid(weights, maxes, s)
    ensures forall i :: 0 <= i < |weights| ==> (s.flexible[i] <==> weights[i] != 0.0)
    ensures s.remaining == amount
  {
    var n := |weights|;
    var flexible := seq(n, i requires 0 <= i < n => weights[i] != 0.0);
    assert MaskedWeights(weights, flexible) == weights;
    TotalBoundsWeights(weights);
    Pass(flexible, amount, SumReal(weights))
  }

  lemma TotalBoundsWeights(weights: seq<real>)
    requires forall i :: 0 <= i < |weights| ==> weights[i] >= 0.0
    ensures forall j :: 0 <= j < |weights| ==> weights[j] <= SumReal(weights)
  {
    forall j | 0 <= j < |weights|
      ensures weights[j] <= SumReal(weights)
    {
      SumRealBoundsTerm(weights, j);
    }
  }

  /** The loop's final state for a call of `split_spare_columns`. */
  function Settled(amount: int, weights: seq<real>, maxes: seq<nat>): (f: Pass)
    requires |weights| == |maxes|
    requires forall i :: 0 <= i < |weights| ==> weights[i] >= 0.0
    ensures Valid(weights, maxes, f)
    ensures forall i :: 0 <= i < |weights| ==> !Saturates(weights, maxes, f, i)
    ensures forall i :: 0 <= i < |weights| && weights[i] != 0.0 && !f.flexible[i] ==> maxes[i] != 0
    ensures f.remaining == amount - SumInt(MaskedCaps(maxes, Dropped(Start(amount, weights, maxes).flexible, f.flexible)))
    ensures amount >= 0 ==> f.remaining >= 0
    ensures RaisedTo(weights, maxes, Start(amount, weights, maxes), f)
  {
    Settle(weights, maxes, Start(amount, weights, maxes))
  }

  /** The extra width of column `i` once the loop has settled at `f`: 0 for
      a zero weight, the cap for a column that left, the floored share of
      what remains otherwise. At a state where the column does not saturate
      the extra never passes the cap, and a column still flexible stays
      strictly below any cap it has. */
  function Extra(weights: seq<real>, maxes: seq<nat>, f: Pass, i: int): (r: int)
    requires Valid(weights, maxes, f)
    requires 0 <= i < |weights|
    ensures !Saturates(weights, maxes, f, i) && maxes[i] != 0 ==> r <= maxes[i]
    ensures !Saturates(weights, maxes, f, i) && f.flexible[i] && maxes[i] != 0 ==> r < maxes[i]
  {
    if weights[i] == 0.0 then 0
    else if f.flexible[i] then Share(f.remaining, f.denominator, weights[i])
    else maxes[i]
  }

  /** `split_spare_columns(amount, weights, maxes)`: one extra width per
      column. Zero-weight columns get 0, and a column with a cap never gets
      more than its cap. `SplitSpareShares` says what every other column
      gets. */
  function SplitSpare(amount: int, weights: seq<real>, maxes: seq<nat>): (r: seq<int>)
    requires |weights| == |maxes|
    requires forall i :: 0 <= i < |weights| ==> weights[i] >= 0.0
    ensures |r| == |weights|
    ensures forall i :: 0 <= i < |r| && weights[i] == 0.0 ==> r[i] == 0
    ensures forall i :: 0 <= i < |r| && maxes[i] != 0 ==> r[i] <= maxes[i]
  {
    var n := |weights|;
    var f := Settled(amount, weights, maxes);
    seq(n, i requires 0 <= i < n => Extra(weights, maxes, f, i))
  }

  /** A saturated column gets exactly its cap; a column still flexible at
      the fixed point gets its floored share of what remains, which is
      strictly below any cap it has. */
  lemma SplitSpareShares(amount: int, weights: seq<real>, maxes: seq<nat>)
    requires |weights| == |maxes|
    requires forall i :: 0 <= i < |weights| ==> weights[i] >= 0.0
    ensures var r := SplitSpare(amount, weights, maxes);
      var f := Settled(amount, weights, maxes);
      forall i :: 0 <= i < |r| && weights[i] != 0.0 ==>
        if f.flexible[i] then
          && r[i] == Share(f.remaining, f.denominator, weights[i])
          && (maxes[i] == 0 || r[i] < maxes[i])
        else
          maxes[i] != 0 && r[i] == maxes[i]
  {
    var f := Settled(amount, weights, maxes);
    assert forall i :: 0 <= i < |weights| ==> !Saturates(weights, maxes, f, i);
  }

  /** Water-filling: while some column is still flexible at the end, every
      weighted column gets the lesser of its cap and its floored share at the
      final level (a cap of zero being no cap). */
  lemma SplitSpareWaterFilling(amount: int, weights: seq<real>, maxes: seq<nat>)
    requires |weights| == |maxes|
    requires forall i :: 0 <= i < |weights| ==> weights[i] >= 0.0
    ensures var f := Settled(amount, weights, maxes);
      var r := SplitSpare(amount, weights, maxes);
      AnyFlexible(f) ==>
        && f.denominator > 0.0
        && forall i :: 0 <= i < |r| && weights[i] != 0.0 ==>
             var share := Share(f.remaining, f.denominator, weights[i]);
             r[i] == if maxes[i] != 0 && share >= maxes[i] then maxes[i] else share
  {
    var f := Settled(amount, weights, maxes);
    FlexibleDenominator(weights, maxes, f);
    SplitSpareShares(amount, weights, maxes);
  }

  /** A floored share of a non-negative amount is non-negative. */
  lemma ShareNonNegative(amount: int, denominator: real, weight: real)
    requires amount >= 0 && denominator > 0.0 && weight >= 0.0
    ensures Share(amount, denominator, weight) >= 0
  {
    var ratio := amount as real / denominator;
    assert ratio >= 0.0;
    assert ratio * weight >= 0.0;
  }

  /** A floored share of a negative amount is negative. */
  lemma ShareNegative(amount: int, denominator: real, weight: real)
    requires amount < 0 && denominator > 0.0 && weight > 0.0
    ensures Share(amount, denominator, weight) < 0
  {
    var ratio := amount as real / denominator;
    assert ratio < 0.0;
    assert ratio * weight < 0.0;
  }

  /** The floored shares of the flexible columns add up to at most the
      remaining amount they share. */
  lemma FlexibleSharesWithinRemaining(weights: seq<real>, maxes: seq<nat>, f: Pass, shares: seq<int>)
    requires Valid(weights, maxes, f)
    requires f.remaining >= 0
    requires |shares| == |weights|
    requires forall i :: 0 <= i < |weights| ==>
      shares[i] == if f.flexible[i] then Share(f.remaining, f.denominator, weights[i]) else 0
    ensures SumInt(shares) <= f.remaining
  {
    var n := |weights|;
    if exists j :: 0 <= j < n && f.flexible[j] {
      var d := f.denominator;
      var ratio := f.remaining as real / d;
      var flexW := MaskedWeights(weights, f.flexible);
      forall i | 0 <= i < n
        ensures shares[i] as real <= ratio * flexW[i]
      {
        if f.flexible[i] {
          var x := ratio * weights[i];
          assert x.Floor as real <= x;
        }
      }
      SumRealNonNegative(flexW);
      CapSumBound(shares, flexW, flexW, ratio, f.remaining, d);
    } else {
      SumIntZero(shares);
    }
  }

  /** With a non-negative spare amount, no column gets a negative extra and
      the extras together never exceed the amount; what flooring loses is
      not handed out again. */
  lemma {:induction false} SplitSpareWithinBudget(amount: int, weights: seq<real>, maxes: seq<nat>)
    requires |weights| == |maxes|
    requires forall i :: 0 <= i < |weights| ==> weights[i] >= 0.0
    requires amount >= 0
    ensures var r := SplitSpare(amount, weights, maxes);
      && (forall i :: 0 <= i < |r| ==> r[i] >= 0)
      && SumInt(r) <= amount
  {
    var n := |weights|;
    var r := SplitSpare(amount, weights, maxes);
    SplitSpareShares(amount, weights, maxes);
    var s := Start(amount, weights, maxes);
    var f := Settled(amount, weights, maxes);
    var capped := MaskedCaps(maxes, Dropped(s.flexible, f.flexible));
    var shares := seq(n, i requires 0 <= i < n =>
      if f.flexible[i] then Share(f.remaining, f.denominator, weights[i]) else 0);
    forall i | 0 <= i < n
      ensures r[i] == capped[i] + shares[i]
      ensures r[i] >= 0
    {
      if f.flexible[i] {
        ShareNonNegative(f.remaining, f.denominator, weights[i]);
      }
    }
    SumIntAdd(capped, shares, r);
    FlexibleSharesWithinRemaining(weights, maxes, f, shares);
  }

  /** A negative spare amount is not clamped: nothing saturates, and every
      column of non-zero weight gets its (negative) floored share of the
      whole amount, which pushes it below its minimum width. */
  lemma {:induction false} SplitSpareNegativeNotClamped(amount: int, weights: seq<real>, maxes: seq<nat>)
    requires |weights| == |maxes|
    requires forall i :: 0 <= i < |weights| ==> weights[i] >= 0.0
    requires amount < 0
    ensures var r := SplitSpare(amount, weights, maxes);
      forall i :: 0 <= i < |r| && weights[i] != 0.0 ==>
        r[i] == Share(amount, SumReal(weights), weights[i]) && r[i] < 0
  {
    var s := Start(amount, weights, maxes);
    forall i | 0 <= i < |weights| && s.flexible[i]
      ensures !Saturates(weights, maxes, s, i)
      ensures Share(amount, SumReal(weights), weights[i]) < 0
    {
      ShareNegative(amount, s.denominator, weights[i]);
    }
    SettleAtFixedPoint(weights, maxes, s);
    SplitSpareShares(amount, weights, maxes);
  }

  /** The first pass of the worked example below: only the second column's
      share, floor(20 / 4 * 1) = 5, reaches its cap. */
  lemma ExampleFirstPass()
    ensures Step([1.0, 1.0, 2.0], [0, 5, 0], Start(20, [1.0, 1.0, 2.0], [0, 5, 0]))
         == Pass([true, false, true], 15, 3.0)
  {
    var weights, maxes := [1.0, 1.0, 2.0], [0, 5, 0];
    ExampleStart();
    ExampleFirstSaturated();
    var sat := [false, true, false];
    assert MaskedCaps(maxes, sat) == [0, 5, 0];
    SumIntOfThree(0, 5, 0);
    assert MaskedWeights(weights, sat) == [0.0, 1.0, 0.0];
    SumRealOfThree(0.0, 1.0, 0.0);
  }

  lemma ExampleStart()
    ensures Start(20, [1.0, 1.0, 2.0], [0, 5, 0]) == Pass([true, true, true], 20, 4.0)
  {
    SumRealOfThree(1.0, 1.0, 2.0);
  }

  lemma ExampleFirstSaturated()
    ensures Valid([1.0, 1.0, 2.0], [0, 5, 0], Pass([true, true, true], 20, 4.0))
    ensures Saturated([1.0, 1.0, 2.0], [0, 5, 0], Pass([true, true, true], 20, 4.0)) == [false, true, false]
  {
    ExampleStart();
    assert Share(20, 4.0, 1.0) == 5;
  }

  /** The loop of the worked example below settles after that pass. */
  lemma ExampleSettled()
    ensures Settled(20, [1.0, 1.0, 2.0], [0, 5, 0]) == Pass([true, false, true], 15, 3.0)
  {
    var weights, maxes := [1.0, 1.0, 2.0], [0, 5, 0];
    ExampleFirstPass();
    var next := Pass([true, false, true], 15, 3.0);
    assert Saturated(weights, maxes, next) == [false, false, false];
    SettleAtFixedPoint(weights, maxes, next);
  }

  /** A worked example: weights 1, 1, 2, caps none, 5,
      none, and 20 spare columns. The second column saturates at 5 and the
      other two split the remaining 15 in the ratio 1 : 2, getting 5 and 10. */
  lemma SplitSpareExample()
    ensures var r := SplitSpare(20, [1.0, 1.0, 2.0], [0, 5, 0]);
      |r| == 3 && r[0] == 5 && r[1] == 5 && r[2] == 10
  {
    ExampleUncapped();
    ExampleCapped();
  }

  lemma ExampleUncapped()
    ensures var r := SplitSpare(20, [1.0, 1.0, 2.0], [0, 5, 0]);
      r[0] == 5 && r[2] == 10
  {
    ExampleSettled();
    ExampleShares();
    SplitSpareShares(20, [1.0, 1.0, 2.0], [0, 5, 0]);
  }

  lemma ExampleCapped()
    ensures SplitSpare(20, [1.0, 1.0, 2.0], [0, 5, 0])[1] == 5
  {
    ExampleSettled();
    SplitSpareShares(20, [1.0, 1.0, 2.0], [0, 5, 0]);
  }

  /** A cap the share does not reach leaves the column in the distribution:
      with 100 spare columns, weights 1 and 1 and a cap of 60 on the first,
      floor(100 / 2 * 1) = 50 stays below 60 and both columns get 50. */
  lemma ExampleBelowCap()
    ensures var r := SplitSpare(100, [1.0, 1.0], [60, 0]);
      |r| == 2 && r[0] == 50 && r[1] == 50
  {
    ExampleBelowCapSettled();
    ExampleBelowCapShare();
    SplitSpareShares(100, [1.0, 1.0], [60, 0]);
  }

  lemma ExampleBelowCapShare()
    ensures Share(100, 2.0, 1.0) == 50
  {
  }

  lemma ExampleBelowCapSettled()
    ensures Settled(100, [1.0, 1.0], [60, 0]) == Pass([true, true], 100, 2.0)
  {
    var weights, maxes := [1.0, 1.0], [60, 0];
    ExampleBelowCapStart();
    var s := Pass([true, true], 100, 2.0);
    assert Share(100, 2.0, 1.0) == 50;
    assert Saturated(weights, maxes, s) == [false, false];
    SettleAtFixedPoint(weights, maxes, s);
  }

  lemma ExampleBelowCapStart()
    ensures Start(100, [1.0, 1.0], [60, 0]) == Pass([true, true], 100, 2.0)
  {
    assert [1.0, 1.0][..1] == [1.0] && [1.0][..0] == [];
  }

  lemma ExampleShares()
    ensures Share(15, 3.0, 1.0) == 5 && Share(15, 3.0, 2.0) == 10
  {
  }
}
