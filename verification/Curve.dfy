/** The Adaptive Lighting schedule: which colour temperature a transition curve
    gives at a time offset, for a brightness. Temperatures are in mired, times in
    milliseconds; the source's float64 values are modelled as reals. */
module Curve {
  /** `ramp` is the time to get to this point from the previous one, `hold` how
      long the point's own value lasts before the next ramp. */
  datatype Point = Point(temperature: real, adjustment: real, ramp: int, hold: int)

  datatype Bounds = Bounds(min: int, max: int)

  /** `Undefined` stands for the result of a floating-point division by zero. */
  datatype Outcome = Exhausted | Mired(value: int) | Undefined

  datatype Window = NoWindow | At(index: nat)

  // ---- Arithmetic of the source ----

  function Clamp(r: Bounds, v: int): int {
    if v < r.min then r.min else if v > r.max then r.max else v
  }

  /** Half away from zero. */
  function Round(x: real): int {
    if x >= 0.0 then (x + 0.5).Floor else -(-x + 0.5).Floor
  }

  lemma {:induction false} RoundMonotone(x: real, y: real)
    requires x <= y
    ensures Round(x) <= Round(y)
  {
  }

  function Mix(x: real, y: real, pct: real): real {
    x + (y - x) * pct
  }

  function Portion(t: int, ramp: int): real
    requires ramp != 0
  {
    t as real / ramp as real
  }

  function Weigh(temperature: real, adjustment: real, b: int): real {
    temperature + adjustment * b as real
  }

  // ---- What a curve means ----

  /** The time at which point `i` is reached. */
  function Start(curve: seq<Point>, i: nat): int
    requires i < |curve|
  {
    if i == 0 then curve[0].ramp else Start(curve, i - 1) + curve[i - 1].hold + curve[i].ramp
  }

  /** Segment `i` lasts from reaching point `i` until reaching the next one. */
  predicate Within(curve: seq<Point>, i: nat, offset: int)
    requires i + 1 < |curve|
  {
    Start(curve, i) <= offset <= Start(curve, i + 1)
  }

  function FirstWindow(curve: seq<Point>, offset: int, i: nat): Window
    decreases |curve| - i
  {
    if i + 1 >= |curve| then NoWindow
    else if Within(curve, i, offset) then At(i)
    else FirstWindow(curve, offset, i + 1)
  }

  /** The unrounded value at time `t` into a segment. */
  function Level(lower: Point, upper: Point, t: int, b: int): real
    requires (lower.hold > 0 && t <= lower.hold) || upper.ramp != 0
  {
    if lower.hold > 0 && t <= lower.hold then
      Weigh(lower.temperature, lower.adjustment, b)
    else
      var pct := Portion(t - lower.hold, upper.ramp);
      Weigh(Mix(lower.temperature, upper.temperature, pct), Mix(lower.adjustment, upper.adjustment, pct), b)
  }

  function Reading(lower: Point, upper: Point, t: int, b: int): Outcome {
    if !(lower.hold > 0 && t <= lower.hold) && upper.ramp == 0 then Undefined
    else Mired(Round(Level(lower, upper, t, b)))
  }

  function Evaluated(curve: seq<Point>, offset: int, brightness: int, r: Bounds): Outcome {
    match FirstWindow(curve, offset, 0)
    case NoWindow => Exhausted
    case At(i) => if i + 1 < |curve| then ReadingAt(curve, i, offset, Clamp(r, brightness)) else Exhausted
  }

  function ReadingAt(curve: seq<Point>, i: nat, offset: int, b: int): Outcome
    requires i + 1 < |curve|
  {
    Reading(curve[i], curve[i + 1], offset - Start(curve, i), b)
  }

  /** The value the schedule reaches at point `i`. */
  function Knot(curve: seq<Point>, i: nat, b: int): real
    requires i < |curve|
  {
    Weigh(curve[i].temperature, curve[i].adjustment, b)
  }

  // ---- The evaluator ----

  method Evaluate(curve: seq<Point>, offset: int, brightness: int, r: Bounds) returns (o: Outcome)
    ensures o == Evaluated(curve, offset, brightness, r)
  {
    hide Weigh, Mix, Portion, Round;
    if |curve| < 2 {
      return Exhausted;
    }
    var lowerBound := 0;
    var found, lower, upper, transitionOffset := false, curve[0], curve[1], 0;
    var i := 0;
    while i + 1 < |curve|
      invariant 0 <= i < |curve|
      invariant !found && lowerBound == Start(curve, i) - curve[i].ramp
      invariant FirstWindow(curve, offset, 0) == FirstWindow(curve, offset, i)
    {
      var lb, ub := curve[i], curve[i + 1];
      lowerBound := lowerBound + lb.ramp;
      assert lowerBound == Start(curve, i) && lowerBound + lb.hold + ub.ramp == Start(curve, i + 1);
      if offset >= lowerBound && offset <= lowerBound + lb.hold + ub.ramp {
        assert FirstWindow(curve, offset, 0) == At(i);
        found, lower, upper, transitionOffset := true, lb, ub, offset - lowerBound;
        break;
      }
      lowerBound := lowerBound + lb.hold;
      i := i + 1;
    }
    if !found {
      return Exhausted;
    }
    var b := brightness;
    if b < r.min {
      b := r.min;
    } else if b > r.max {
      b := r.max;
    }
    assert b == Clamp(r, brightness);
    assert Evaluated(curve, offset, brightness, r) == Reading(lower, upper, transitionOffset, b);
    var temp, adj;
    if lower.hold > 0 && transitionOffset <= lower.hold {
      temp := lower.temperature;
      adj := lower.adjustment;
    } else if upper.ramp == 0 {
      return Undefined;
    } else {
      var pct := Portion(transitionOffset - lower.hold, upper.ramp);
      temp := Mix(lower.temperature, upper.temperature, pct);
      adj := Mix(lower.adjustment, upper.adjustment, pct);
    }
    o := Mired(Round(Weigh(temp, adj, b)));
  }

  // ---- In plain arithmetic ----

  /** A value inside the range is left alone; otherwise it becomes the end that it is
      beyond, the lower one first. */
  lemma {:induction false} ClampIs(r: Bounds, v: int)
    ensures r.min <= v <= r.max ==> Clamp(r, v) == v
    ensures v < r.min ==> Clamp(r, v) == r.min
    ensures r.min <= v && r.max < v ==> Clamp(r, v) == r.max
  {
  }

  /** The nearest whole number; of two, the one away from zero. */
  lemma {:induction false} RoundIsNearest(x: real, v: int)
    ensures v == Round(x) <==> Nearest(v, x)
  {
  }

  /** The times at which the points are reached, from the first point's own time on. */
  predicate Times(curve: seq<Point>, times: seq<int>) {
    && |times| == |curve|
    && (|curve| > 0 ==> times[0] == curve[0].ramp)
    && forall i :: 0 < i < |curve| ==> times[i] == times[i - 1] + curve[i - 1].hold + curve[i].ramp
  }

  lemma {:induction false} TimesAreStarts(curve: seq<Point>, times: seq<int>, i: nat)
    requires Times(curve, times) && i < |curve|
    ensures times[i] == Start(curve, i)
  {
    if i > 0 {
      TimesAreStarts(curve, times, i - 1);
    }
  }

  lemma {:induction false} FirstMatch(curve: seq<Point>, offset: int, i: nat, j: nat)
    requires i <= j && j + 1 < |curve| && Within(curve, j, offset)
    requires forall m :: i <= m < j ==> !Within(curve, m, offset)
    ensures FirstWindow(curve, offset, i) == At(j)
    decreases j - i
  {
    if i < j {
      assert !Within(curve, i, offset);
      FirstMatch(curve, offset, i + 1, j);
    }
  }

  lemma {:induction false} NoMatch(curve: seq<Point>, offset: int, i: nat)
    requires forall m :: i <= m < |curve| - 1 ==> !Within(curve, m, offset)
    ensures FirstWindow(curve, offset, i) == NoWindow
    decreases |curve| - i
  {
    if i + 1 < |curve| {
      assert !Within(curve, i, offset);
      NoMatch(curve, offset, i + 1);
    }
  }

  /** What a point stands for at a brightness. */
  function Warmth(p: Point, b: int): real {
    p.temperature + p.adjustment * b as real
  }

  /** The value after `t` of `n` steps along the straight line from `x` to `y`. */
  function Line(x: real, y: real, t: int, n: int): real
    requires n != 0
  {
    x + (y - x) * (t as real / n as real)
  }

  /** What one segment gives: while it holds, the whole number nearest to the temperature
      plus the factor times the brightness; on the ramp, the one nearest to the straight
      line between the two points at that brightness, as far along it as the time is
      along the ramp. Ties go away from zero. */
  predicate Reads(lower: Point, upper: Point, t: int, b: int, o: Outcome) {
    if lower.hold > 0 && t <= lower.hold then o.Mired? && Nearest(o.value, Warmth(lower, b))
    else if upper.ramp == 0 then o == Undefined
    else o.Mired? && Nearest(o.value, Line(Warmth(lower, b), Warmth(upper, b), t - lower.hold, upper.ramp))
  }

  predicate Nearest(v: int, x: real) {
    && -0.5 <= v as real - x <= 0.5
    && (v as real - x == 0.5 ==> x >= 0.0) && (v as real - x == -0.5 ==> x < 0.0)
  }

  lemma {:induction false} SegmentReads(lower: Point, upper: Point, t: int, b: int)
    ensures Reads(lower, upper, t, b, Reading(lower, upper, t, b))
  {
    hide Nearest, Round, Level, Line, Warmth;
    if (lower.hold > 0 && t <= lower.hold) || upper.ramp != 0 {
      LevelIs(lower, upper, t, b);
      RoundIsNearest(Level(lower, upper, t, b), Round(Level(lower, upper, t, b)));
    }
  }

  lemma {:induction false} LevelIs(lower: Point, upper: Point, t: int, b: int)
    requires (lower.hold > 0 && t <= lower.hold) || upper.ramp != 0
    ensures Level(lower, upper, t, b)
            == if lower.hold > 0 && t <= lower.hold then Warmth(lower, b)
               else Line(Warmth(lower, b), Warmth(upper, b), t - lower.hold, upper.ramp)
  {
    if !(lower.hold > 0 && t <= lower.hold) {
      WeighMixed(lower.temperature, upper.temperature, lower.adjustment, upper.adjustment,
                 Portion(t - lower.hold, upper.ramp), b);
    }
  }

  /** Segment `i` is the first that contains the offset. */
  predicate FirstAt(times: seq<int>, offset: int, i: nat) {
    && i + 1 < |times| && times[i] <= offset <= times[i + 1]
    && forall j :: 0 <= j < i ==> !(times[j] <= offset <= times[j + 1])
  }

  /** The schedule on any curve: the first segment that contains the offset gives the
      value, at the brightness limited to its range. */
  lemma {:induction false} ScheduleReads(
      curve: seq<Point>, times: seq<int>, i: nat, offset: int, brightness: int, r: Bounds, b: int)
    requires Times(curve, times) && FirstAt(times, offset, i)
    requires b == if brightness < r.min then r.min else if brightness > r.max then r.max else brightness
    ensures Reads(curve[i], curve[i + 1], offset - times[i], b, Evaluated(curve, offset, brightness, r))
  {
    TimesAreAllStarts(curve, times);
    hide Start, Reads, Reading;
    FirstMatch(curve, offset, 0, i);
    SegmentReads(curve[i], curve[i + 1], offset - times[i], b);
  }

  /** It has none exactly when no segment contains the offset. */
  lemma {:induction false} ScheduleOver(
      curve: seq<Point>, times: seq<int>, offset: int, brightness: int, r: Bounds)
    requires Times(curve, times)
    ensures Evaluated(curve, offset, brightness, r) == Exhausted
            <==> forall i :: 0 <= i < |curve| - 1 ==> !(times[i] <= offset <= times[i + 1])
  {
    TimesAreAllStarts(curve, times);
    hide Start, Reading, FirstWindow;
    if i :| 0 <= i < |curve| - 1 && times[i] <= offset <= times[i + 1] {
      var k := Earliest(times, offset, i);
      FirstMatch(curve, offset, 0, k);
      NeverExhausted(curve[k], curve[k + 1], offset - times[k], Clamp(r, brightness));
    } else {
      NoMatch(curve, offset, 0);
    }
  }

  lemma {:induction false} TimesAreAllStarts(curve: seq<Point>, times: seq<int>)
    requires Times(curve, times)
    ensures forall i :: 0 <= i < |curve| ==> times[i] == Start(curve, i)
  {
    forall i | 0 <= i < |curve|
      ensures times[i] == Start(curve, i)
    {
      TimesAreStarts(curve, times, i);
    }
  }

  lemma {:induction false} NeverExhausted(lower: Point, upper: Point, t: int, b: int)
    ensures Reading(lower, upper, t, b) != Exhausted
  {
  }

  lemma {:induction false} Earliest(times: seq<int>, offset: int, i: nat) returns (k: nat)
    requires i + 1 < |times| && times[i] <= offset <= times[i + 1]
    ensures k <= i && FirstAt(times, offset, k)
    decreases i
  {
    k := i;
    if j :| 0 <= j < i && times[j] <= offset <= times[j + 1] {
      k := Earliest(times, offset, j);
    }
  }

  // ---- When evaluation succeeds ----

  predicate NonNegative(curve: seq<Point>) {
    forall i :: 0 <= i < |curve| ==> curve[i].ramp >= 0 && curve[i].hold >= 0
  }

  lemma {:induction false} StartMonotone(curve: seq<Point>, i: nat, j: nat)
    requires NonNegative(curve) && i <= j < |curve|
    ensures Start(curve, i) <= Start(curve, j)
    decreases j
  {
    if i < j {
      StartMonotone(curve, i, j - 1);
    }
  }

  lemma {:induction false} FirstWindowFrom(curve: seq<Point>, offset: int, i: nat)
    requires NonNegative(curve)
    ensures i + 1 < |curve| && Start(curve, i) <= offset <= Start(curve, |curve| - 1)
            ==> FirstWindow(curve, offset, i).At?
    ensures var w := FirstWindow(curve, offset, i);
            w.At? ==> i <= w.index < |curve| - 1 && Within(curve, w.index, offset)
    decreases |curve| - i
  {
    if i + 1 < |curve| && !Within(curve, i, offset) {
      FirstWindowFrom(curve, offset, i + 1);
    }
  }

  lemma {:induction false} EarlierWindowsMiss(curve: seq<Point>, offset: int, i: nat, j: nat)
    requires i <= j < |curve| - 1 && Within(curve, j, offset)
    ensures var w := FirstWindow(curve, offset, i); w.At? && w.index <= j
    decreases j - i
  {
    if !Within(curve, i, offset) {
      EarlierWindowsMiss(curve, offset, i + 1, j);
    }
  }

  /** Evaluation finds a segment exactly when there are two points or more and the
      offset lies between reaching the first and reaching the last. */
  lemma {:induction false} SucceedsIff(curve: seq<Point>, offset: int, brightness: int, r: Bounds)
    requires NonNegative(curve)
    ensures Evaluated(curve, offset, brightness, r) != Exhausted
            <==> |curve| >= 2 && curve[0].ramp <= offset <= Start(curve, |curve| - 1)
  {
    FirstWindowFrom(curve, offset, 0);
    var w := FirstWindow(curve, offset, 0);
    if w.At? {
      StartMonotone(curve, 0, w.index);
      StartMonotone(curve, w.index + 1, |curve| - 1);
    }
  }

  /** The division by zero happens exactly at the start of a curve whose first
      segment has no length: a later empty segment is hidden by its predecessor. */
  lemma {:induction false} UndefinedIff(curve: seq<Point>, offset: int, brightness: int, r: Bounds)
    requires NonNegative(curve)
    ensures Evaluated(curve, offset, brightness, r) == Undefined
            <==> |curve| >= 2 && offset == curve[0].ramp && curve[0].hold == 0 && curve[1].ramp == 0
  {
    FirstWindowFrom(curve, offset, 0);
    var w := FirstWindow(curve, offset, 0);
    if w.At? && w.index > 0 {
      var i := w.index;
      StartMonotone(curve, i - 1, i);
      if curve[i].hold == 0 && curve[i + 1].ramp == 0 {
        EarlierWindowsMiss(curve, offset, 0, i - 1);
      }
    }
  }

  // ---- One segment ----

  lemma {:induction false} Product(x: real, y: real)
    requires 0.0 <= x && 0.0 <= y
    ensures 0.0 <= x * y
  {
  }

  lemma {:induction false} PortionRange(t: int, ramp: int)
    requires 0 <= t <= ramp && 0 < ramp
    ensures 0.0 <= Portion(t, ramp) <= 1.0
    ensures (t == ramp ==> Portion(t, ramp) == 1.0) && (t == 0 ==> Portion(t, ramp) == 0.0)
  {
  }

  lemma {:induction false} PortionMonotone(s: int, t: int, ramp: int)
    requires s <= t && 0 < ramp
    ensures Portion(s, ramp) <= Portion(t, ramp)
  {
    var r, p, q := ramp as real, Portion(s, ramp), Portion(t, ramp);
    assert p * r == s as real && q * r == t as real;
    if p > q {
      Product(p - q, r);
    }
  }

  lemma {:induction false} MixEnds(x: real, y: real)
    ensures Mix(x, y, 0.0) == x && Mix(x, y, 1.0) == y
  {
  }

  lemma {:induction false} MixWeighted(x: real, y: real, pct: real)
    ensures Mix(x, y, pct) == x * (1.0 - pct) + y * pct
  {
  }

  /** Interpolating temperature and factor and then applying the brightness is
      interpolating the two values at that brightness. */
  lemma {:induction false} WeighMixed(x: real, y: real, u: real, v: real, pct: real, b: int)
    ensures Weigh(Mix(x, y, pct), Mix(u, v, pct), b) == Mix(Weigh(x, u, b), Weigh(y, v, b), pct)
  {
    var z := b as real;
    MixWeighted(u, v, pct);
    MixWeighted(x, y, pct);
    MixWeighted(Weigh(x, u, b), Weigh(y, v, b), pct);
    assert (u * (1.0 - pct) + v * pct) * z == (u * z) * (1.0 - pct) + (v * z) * pct;
    assert (x + u * z) * (1.0 - pct) == x * (1.0 - pct) + (u * z) * (1.0 - pct);
    assert (y + v * z) * pct == y * pct + (v * z) * pct;
  }

  lemma {:induction false} MixBetween(x: real, y: real, pct: real)
    requires 0.0 <= pct <= 1.0
    ensures x <= y ==> x <= Mix(x, y, pct) <= y
    ensures x >= y ==> y <= Mix(x, y, pct) <= x
  {
    MixWeighted(x, y, pct);
    if x <= y {
      Product(y - x, pct);
      Product(y - x, 1.0 - pct);
    } else {
      Product(x - y, pct);
      Product(x - y, 1.0 - pct);
    }
  }

  lemma {:induction false} MixMonotone(x: real, y: real, p: real, q: real)
    requires x <= y && p <= q
    ensures Mix(x, y, p) <= Mix(x, y, q)
  {
    Product(y - x, q - p);
  }

  lemma {:induction false} MixFalls(x: real, y: real, x': real, y': real, p: real)
    requires x >= x' && y >= y' && 0.0 <= p <= 1.0
    ensures Mix(x, y, p) >= Mix(x', y', p)
  {
    MixWeighted(x, y, p);
    MixWeighted(x', y', p);
    Product(x - x', 1.0 - p);
    Product(y - y', p);
  }

  predicate Readable(curve: seq<Point>, i: nat, offset: int) {
    && i + 1 < |curve|
    && Within(curve, i, offset)
    && (curve[i].hold > 0 || curve[i + 1].ramp > 0)
  }

  /** The unrounded value that segment `i` gives at `offset`. */
  function LevelAt(curve: seq<Point>, i: nat, offset: int, b: int): real
    requires NonNegative(curve) && Readable(curve, i, offset)
  {
    Level(curve[i], curve[i + 1], offset - Start(curve, i), b)
  }

  /** A segment reads its lower knot while it holds and then moves in proportion to
      the time towards its upper knot. */
  lemma {:induction false} LevelAtMixes(curve: seq<Point>, i: nat, offset: int, b: int)
    requires NonNegative(curve) && Readable(curve, i, offset)
    ensures var t := offset - Start(curve, i) - curve[i].hold;
            var x, y := Knot(curve, i, b), Knot(curve, i + 1, b);
            LevelAt(curve, i, offset, b) ==
            if t <= 0 then x else Mix(x, y, Portion(t, curve[i + 1].ramp))
  {
    hide Mix, Weigh, Portion;
    var t := offset - Start(curve, i) - curve[i].hold;
    var p, q := curve[i], curve[i + 1];
    if !(p.hold > 0 && t <= 0) {
      WeighMixed(p.temperature, q.temperature, p.adjustment, q.adjustment, Portion(t, q.ramp), b);
      PortionRange(t, q.ramp);
      MixEnds(Knot(curve, i, b), Knot(curve, i + 1, b));
    }
  }

  lemma {:induction false} LevelBetween(curve: seq<Point>, i: nat, offset: int, b: int)
    requires NonNegative(curve) && Readable(curve, i, offset)
    ensures var x, y, v := Knot(curve, i, b), Knot(curve, i + 1, b), LevelAt(curve, i, offset, b);
            x <= v <= y || y <= v <= x
  {
    hide LevelAt, Knot, Mix, Portion;
    LevelAtMixes(curve, i, offset, b);
    var t := offset - Start(curve, i) - curve[i].hold;
    if t > 0 {
      PortionRange(t, curve[i + 1].ramp);
      MixBetween(Knot(curve, i, b), Knot(curve, i + 1, b), Portion(t, curve[i + 1].ramp));
    }
  }

  lemma {:induction false} LevelMonotone(curve: seq<Point>, i: nat, s: int, t: int, b: int)
    requires NonNegative(curve) && Readable(curve, i, s) && Readable(curve, i, t) && s <= t
    requires Knot(curve, i, b) <= Knot(curve, i + 1, b)
    ensures LevelAt(curve, i, s, b) <= LevelAt(curve, i, t, b)
  {
    hide LevelAt, Knot, Mix, Portion;
    LevelAtMixes(curve, i, s, b);
    LevelAtMixes(curve, i, t, b);
    var base, ramp := Start(curve, i) + curve[i].hold, curve[i + 1].ramp;
    if s > base {
      PortionMonotone(s - base, t - base, ramp);
      MixMonotone(Knot(curve, i, b), Knot(curve, i + 1, b), Portion(s - base, ramp), Portion(t - base, ramp));
    } else if t > base {
      LevelBetween(curve, i, t, b);
    }
  }

  // ---- The whole schedule ----

  /** A defined result is the rounded value of the first segment that contains the
      offset. */
  lemma {:induction false} DefinedReading(curve: seq<Point>, offset: int, brightness: int, r: Bounds) returns (i: nat)
    requires NonNegative(curve) && Evaluated(curve, offset, brightness, r).Mired?
    ensures Readable(curve, i, offset) && FirstWindow(curve, offset, 0) == At(i)
    ensures Evaluated(curve, offset, brightness, r).value == Round(LevelAt(curve, i, offset, Clamp(r, brightness)))
  {
    FirstWindowFrom(curve, offset, 0);
    i := FirstWindow(curve, offset, 0).index;
  }

  /** The result lies between the rounded values of the two bracketing knots. */
  lemma {:induction false} BetweenKnots(curve: seq<Point>, offset: int, brightness: int, r: Bounds)
    requires NonNegative(curve) && Evaluated(curve, offset, brightness, r).Mired?
    ensures exists i ::
      && 0 <= i < |curve| - 1 && Within(curve, i, offset)
      && var b := Clamp(r, brightness);
         var x, y := Round(Knot(curve, i, b)), Round(Knot(curve, i + 1, b));
         var v := Evaluated(curve, offset, brightness, r).value;
         x <= v <= y || y <= v <= x
  {
    var i := DefinedReading(curve, offset, brightness, r);
    var b := Clamp(r, brightness);
    LevelBetween(curve, i, offset, b);
    hide LevelAt, Knot, Round, Evaluated;
    var x, y, v := Knot(curve, i, b), Knot(curve, i + 1, b), LevelAt(curve, i, offset, b);
    if x <= v <= y {
      RoundMonotone(x, v);
      RoundMonotone(v, y);
    } else {
      RoundMonotone(y, v);
      RoundMonotone(v, x);
    }
    assert Within(curve, i, offset);
  }

  predicate Rising(curve: seq<Point>, b: int) {
    forall i :: 0 <= i < |curve| - 1 ==> Knot(curve, i, b) <= Knot(curve, i + 1, b)
  }

  lemma {:induction false} RisingBetween(curve: seq<Point>, b: int, i: nat, j: nat)
    requires Rising(curve, b) && i <= j < |curve|
    ensures Knot(curve, i, b) <= Knot(curve, j, b)
    decreases j
  {
    hide Knot;
    if i < j {
      RisingBetween(curve, b, i, j - 1);
      assert Knot(curve, j - 1, b) <= Knot(curve, j - 1 + 1, b);
    }
  }

  lemma {:induction false} WindowsInOrder(curve: seq<Point>, s: int, t: int, i: nat, j: nat)
    requires NonNegative(curve) && s <= t
    requires FirstWindow(curve, s, 0) == At(i) && FirstWindow(curve, t, 0) == At(j)
    ensures i <= j
  {
    FirstWindowFrom(curve, s, 0);
    FirstWindowFrom(curve, t, 0);
    if j < i {
      StartMonotone(curve, j + 1, i);
    }
  }

  /** Knots that never fall give a value that never falls over the whole schedule:
      across segments, holds and rounding. */
  lemma {:induction false} MonotoneInTime(curve: seq<Point>, s: int, t: int, brightness: int, r: Bounds)
    requires NonNegative(curve) && Rising(curve, Clamp(r, brightness)) && s <= t
    requires Evaluated(curve, s, brightness, r).Mired? && Evaluated(curve, t, brightness, r).Mired?
    ensures Evaluated(curve, s, brightness, r).value <= Evaluated(curve, t, brightness, r).value
  {
    var b := Clamp(r, brightness);
    var i := DefinedReading(curve, s, brightness, r);
    var j := DefinedReading(curve, t, brightness, r);
    hide Evaluated, LevelAt, Knot, Round, Clamp, Readable, FirstWindow;
    WindowsInOrder(curve, s, t, i, j);
    assert Readable(curve, i, s) && i + 1 < |curve| && j + 1 < |curve| by {
      InBounds(curve, i, s);
      InBounds(curve, j, t);
    }
    assert Knot(curve, i, b) <= Knot(curve, i + 1, b);
    assert Knot(curve, j, b) <= Knot(curve, j + 1, b);
    var v, w := LevelAt(curve, i, s, b), LevelAt(curve, j, t, b);
    if i == j {
      LevelMonotone(curve, i, s, t, b);
    } else {
      LevelBetween(curve, i, s, b);
      RisingBetween(curve, b, i + 1, j);
      LevelBetween(curve, j, t, b);
    }
    RoundMonotone(v, w);
  }

  lemma {:induction false} InBounds(curve: seq<Point>, i: nat, offset: int)
    requires Readable(curve, i, offset)
    ensures i + 1 < |curve|
  {
  }

  // ---- First match is the piecewise-linear function ----

  predicate PositiveRamps(curve: seq<Point>) {
    forall i :: 0 < i < |curve| ==> curve[i].ramp > 0
  }

  lemma {:induction false} NeighboursAgree(curve: seq<Point>, i: nat, offset: int, b: int)
    requires NonNegative(curve) && PositiveRamps(curve) && i + 2 < |curve| && offset == Start(curve, i + 1)
    ensures Readable(curve, i, offset) && Readable(curve, i + 1, offset)
    ensures LevelAt(curve, i, offset, b) == LevelAt(curve, i + 1, offset, b)
  {
    StartMonotone(curve, i, i + 1);
    StartMonotone(curve, i + 1, i + 2);
    LevelAtMixes(curve, i, offset, b);
    LevelAtMixes(curve, i + 1, offset, b);
    hide LevelAt, Knot, Mix, Portion;
    PortionRange(curve[i + 1].ramp, curve[i + 1].ramp);
    MixEnds(Knot(curve, i, b), Knot(curve, i + 1, b));
  }

  /** With positive ramps every segment that contains the offset gives the value
      that the search for the first one gives. */
  lemma {:induction false} AnyWindowAgrees(curve: seq<Point>, i: nat, offset: int, brightness: int, r: Bounds)
    requires NonNegative(curve) && PositiveRamps(curve)
    requires i + 1 < |curve| && Within(curve, i, offset)
    ensures Readable(curve, i, offset)
    ensures Evaluated(curve, offset, brightness, r) == Mired(Round(LevelAt(curve, i, offset, Clamp(r, brightness))))
  {
    EarlierWindowsMiss(curve, offset, 0, i);
    FirstWindowFrom(curve, offset, 0);
    var j := FirstWindow(curve, offset, 0).index;
    if j < i {
      StartMonotone(curve, j + 1, i);
      if j + 1 < i {
        StartMonotone(curve, j + 1, i - 1);
      }
      NeighboursAgree(curve, j, offset, Clamp(r, brightness));
    }
  }

  /** The schedule as a function of time, segment by segment, with no search: the
      knot's value during the hold, then a straight line to the next knot. */
  lemma {:induction false} PiecewiseLinear(curve: seq<Point>, i: nat, offset: int, brightness: int, r: Bounds)
    requires NonNegative(curve) && PositiveRamps(curve) && i + 1 < |curve|
    ensures var b := Clamp(r, brightness);
            var x, y := Knot(curve, i, b), Knot(curve, i + 1, b);
            var t := offset - Start(curve, i) - curve[i].hold;
            && (-curve[i].hold <= t <= 0 ==> Evaluated(curve, offset, brightness, r) == Mired(Round(x)))
            && (0 <= t <= curve[i + 1].ramp ==>
                Evaluated(curve, offset, brightness, r)
                == Mired(Round(Mix(x, y, Portion(t, curve[i + 1].ramp)))))
  {
    hide LevelAt, Knot, Mix, Portion, Evaluated, Round;
    var t := offset - Start(curve, i) - curve[i].hold;
    if -curve[i].hold <= t <= curve[i + 1].ramp {
      var b := Clamp(r, brightness);
      AnyWindowAgrees(curve, i, offset, brightness, r);
      LevelAtMixes(curve, i, offset, b);
      if t == 0 {
        PortionRange(t, curve[i + 1].ramp);
        MixEnds(Knot(curve, i, b), Knot(curve, i + 1, b));
      }
    }
  }

  // ---- Brightness ----

  predicate Cooling(curve: seq<Point>) {
    forall i :: 0 <= i < |curve| ==> curve[i].adjustment <= 0.0
  }

  lemma {:induction false} KnotFalls(curve: seq<Point>, i: nat, b: int, c: int)
    requires i < |curve| && curve[i].adjustment <= 0.0 && b <= c
    ensures Knot(curve, i, b) >= Knot(curve, i, c)
  {
    Product(-curve[i].adjustment, (c - b) as real);
    assert (c - b) as real == c as real - b as real;
  }

  lemma {:induction false} LevelFalls(curve: seq<Point>, i: nat, offset: int, b: int, c: int)
    requires NonNegative(curve) && Readable(curve, i, offset) && Cooling(curve) && b <= c
    ensures LevelAt(curve, i, offset, b) >= LevelAt(curve, i, offset, c)
  {
    hide LevelAt, Knot, Mix, Portion;
    LevelAtMixes(curve, i, offset, b);
    LevelAtMixes(curve, i, offset, c);
    KnotFalls(curve, i, b, c);
    KnotFalls(curve, i + 1, b, c);
    var t := offset - Start(curve, i) - curve[i].hold;
    if t > 0 {
      PortionRange(t, curve[i + 1].ramp);
      MixFalls(Knot(curve, i, b), Knot(curve, i + 1, b), Knot(curve, i, c), Knot(curve, i + 1, c),
               Portion(t, curve[i + 1].ramp));
    }
  }

  /** Lowering the brightness from `c` to `b` never lowers the mired value, and
      neither after limiting it to what the lamp supports. */
  ghost predicate DimmingWarms(r: Bounds) {
    forall curve, offset, b, c, lamp: Bounds
      | NonNegative(curve) && Cooling(curve) && b <= c && lamp.min <= lamp.max
        && Evaluated(curve, offset, b, r).Mired? && Evaluated(curve, offset, c, r).Mired? ::
      && Evaluated(curve, offset, b, r).value >= Evaluated(curve, offset, c, r).value
      && Clamp(lamp, Evaluated(curve, offset, b, r).value) >= Clamp(lamp, Evaluated(curve, offset, c, r).value)
  }

  lemma {:induction false} ClampMonotone(r: Bounds, b: int, c: int)
    requires r.min <= r.max && b <= c
    ensures Clamp(r, b) <= Clamp(r, c)
  {
  }

  lemma {:induction false} DimmerIsWarmer(curve: seq<Point>, offset: int, b: int, c: int, r: Bounds)
    requires NonNegative(curve) && Cooling(curve) && b <= c && r.min <= r.max
    requires Evaluated(curve, offset, b, r).Mired? && Evaluated(curve, offset, c, r).Mired?
    ensures Evaluated(curve, offset, b, r).value >= Evaluated(curve, offset, c, r).value
  {
    var i := DefinedReading(curve, offset, b, r);
    var j := DefinedReading(curve, offset, c, r);
    hide Evaluated, LevelAt, Round;
    ClampMonotone(r, b, c);
    LevelFalls(curve, i, offset, Clamp(r, b), Clamp(r, c));
    RoundMonotone(LevelAt(curve, i, offset, Clamp(r, c)), LevelAt(curve, i, offset, Clamp(r, b)));
  }

  /** A curve whose factors are never positive warms the light as it dims exactly
      when the brightness range is not inverted. */
  lemma {:induction false} DimmingWarmsIff(r: Bounds)
    ensures DimmingWarms(r) <==> r.min <= r.max
  {
    if r.min <= r.max {
      forall curve, offset, b, c, lamp: Bounds
        | NonNegative(curve) && Cooling(curve) && b <= c && lamp.min <= lamp.max
          && Evaluated(curve, offset, b, r).Mired? && Evaluated(curve, offset, c, r).Mired?
        ensures Evaluated(curve, offset, b, r).value >= Evaluated(curve, offset, c, r).value
        ensures Clamp(lamp, Evaluated(curve, offset, b, r).value) >= Clamp(lamp, Evaluated(curve, offset, c, r).value)
      {
        DimmerIsWarmer(curve, offset, b, c, r);
        ClampMonotone(lamp, Evaluated(curve, offset, c, r).value, Evaluated(curve, offset, b, r).value);
      }
    } else {
      InvertedRange(r);
    }
  }

  /** Just below an inverted range the brightness is raised to its lower end. */
  lemma {:induction false} InvertedRange(r: Bounds)
    requires r.max < r.min
    ensures !DimmingWarms(r)
  {
    var p := Point(0.0, -1.0, 0, 1);
    var curve := [p, p];
    var b, c := r.min - 1, r.min;
    var lamp := Bounds(0, 0);
    assert NonNegative(curve) && Cooling(curve);
    assert FirstWindow(curve, 0, 0) == At(0);
    assert Evaluated(curve, 0, b, r) == Mired(Round(-1.0 * r.min as real));
    assert Evaluated(curve, 0, c, r) == Mired(Round(-1.0 * r.max as real));
    RoundWhole(-r.min);
    RoundWhole(-r.max);
    assert lamp.min <= lamp.max;
  }

  lemma {:induction false} RoundWhole(n: int)
    ensures Round(n as real) == n
  {
  }
}
