/** A running transition: how a configuration becomes one, what time it is within
    it, and what the controller reports about it. Clocks are in milliseconds. */
module Schedule {
  import opened Bytes
  import opened AdaptiveTlv
  import opened Curve

  const TWO_63 := 0x8000_0000_0000_0000
  const TWO_64 := 0x1_0000_0000_0000_0000
  /** 2001-01-01 00:00:00 UTC since the Unix epoch. */
  const HAP_EPOCH := 978307200000
  const DEFAULT_INTERVAL := 60000

  /** The int64 that the source's arithmetic gives for `x`. */
  function Wrap(x: int): int {
    (x + TWO_63) % TWO_64 - TWO_63
  }

  lemma {:induction false} WrapIsNear(x: int) returns (k: int)
    ensures Wrap(x) == x - k * TWO_64 && -TWO_63 <= Wrap(x) < TWO_63
  {
    k := (x + TWO_63) / TWO_64;
  }

  lemma {:induction false} WrapUnique(x: int, y: int, k: int)
    requires y == x - k * TWO_64 && -TWO_63 <= y < TWO_63
    ensures Wrap(x) == y
  {
    DivisionUnique(x + TWO_63, TWO_64, k, y + TWO_63);
  }

  // ---- A transition ----

  datatype Transition = Transition(
    iid: uint64, adjustmentIid: uint64, parameters: TransitionParameters,
    start: int, timeOffset: int,
    curve: seq<Point>, range: Bounds, interval: int, notify: int)

  function Padded(b: seq<byte>, n: nat): (p: seq<byte>)
    ensures |p| == n
  {
    if n <= |b| then b[..n] else b + seq(n - |b|, _ => 0)
  }

  function StartTimeMillis(b: seq<byte>): int {
    Wrap(HAP_EPOCH + Wrap(FromLittleEndian(Padded(b, 8))))
  }

  function Points(es: seq<CurveEntry>, toReal: float32 -> real): (ps: seq<Point>)
    ensures |ps| == |es|
    ensures forall i :: 0 <= i < |es| ==>
      ps[i] == Point(toReal(es[i].temperature), toReal(es[i].adjustmentFactor), es[i].transitionOffset, es[i].duration)
  {
    seq(|es|, (i: int) requires 0 <= i < |es| =>
      Point(toReal(es[i].temperature), toReal(es[i].adjustmentFactor), es[i].transitionOffset, es[i].duration))
  }

  function Setup(c: TransitionConfig, toReal: float32 -> real, now: int): Transition {
    var start := StartTimeMillis(c.parameters.startTime);
    Transition(c.iid, c.curve.adjustmentIid, c.parameters, start, Wrap(now - start),
               Points(c.curve.entries, toReal), Bounds(c.curve.multiplier.min, c.curve.multiplier.max),
               if c.updateInterval <= 0 then DEFAULT_INTERVAL else c.updateInterval,
               c.notifyIntervalThreshold)
  }

  /** A transition takes every field from its configuration: the start time in up to
      eight bytes counts milliseconds from 2001, an update interval of zero stands for a
      minute, and the clock is read once to see how far the start is away. */
  lemma {:induction false} SetupFields(c: TransitionConfig, toReal: float32 -> real, now: int)
    ensures var t, bytes := Setup(c, toReal, now), c.parameters.startTime;
            var millis := FromLittleEndian(if |bytes| <= 8 then bytes else bytes[..8]);
            && t.iid == c.iid && t.adjustmentIid == c.curve.adjustmentIid && t.parameters == c.parameters
            && (-TWO_63 <= t.start < TWO_63 && (978307200000 + millis - t.start) % 0x1_0000_0000_0000_0000 == 0)
            && (-TWO_63 <= t.timeOffset < TWO_63 && (now - t.start - t.timeOffset) % 0x1_0000_0000_0000_0000 == 0)
            && t.range.min == c.curve.multiplier.min && t.range.max == c.curve.multiplier.max
            && t.interval == (if c.updateInterval == 0 then 60000 else c.updateInterval)
            && t.notify == c.notifyIntervalThreshold && |t.curve| == |c.curve.entries|
    ensures var ps, es := Setup(c, toReal, now).curve, c.curve.entries;
            forall i :: 0 <= i < |es| ==>
              && ps[i].temperature == toReal(es[i].temperature) && ps[i].adjustment == toReal(es[i].adjustmentFactor)
              && ps[i].ramp == es[i].transitionOffset && ps[i].hold == es[i].duration
  {
    var bytes := c.parameters.startTime;
    PaddedValue(bytes, 8);
    var millis := FromLittleEndian(Padded(bytes, 8));
    var j := WrapIsNear(millis);
    var k := WrapIsNear(HAP_EPOCH + Wrap(millis));
    var start := StartTimeMillis(bytes);
    var l := WrapIsNear(now - start);
    hide Wrap, FromLittleEndian, Padded;
    DivisionUnique(HAP_EPOCH + millis - start, TWO_64, j + k, 0);
    DivisionUnique(now - start - Wrap(now - start), TWO_64, l, 0);
  }

  lemma {:induction false} PaddedValue(b: seq<byte>, n: nat)
    ensures FromLittleEndian(Padded(b, n)) == FromLittleEndian(if |b| <= n then b else b[..n])
    decreases n
  {
    if n == |b| {
      assert b[..n] == b;
    } else if b == [] {
      ZerosSpell(n);
      assert Padded(b, n) == seq(n, _ => 0);
    } else if |b| < n {
      assert Padded(b, n)[1..] == Padded(b[1..], n - 1);
      PaddedValue(b[1..], n - 1);
    }
  }

  lemma {:induction false} ZerosSpell(n: nat)
    ensures FromLittleEndian(seq(n, _ => 0)) == 0
  {
    if n > 0 {
      ZerosSpell(n - 1);
      assert seq(n, _ => 0 as byte)[1..] == seq(n - 1, _ => 0 as byte);
    }
  }

  /** The time within the schedule at the clock reading `now`. */
  function Offset(t: Transition, now: int): int {
    Wrap(Wrap(now - t.timeOffset) - t.start)
  }

  /** Whatever the start time says, even malformed or overflowing, the schedule
      runs on the time elapsed since it was set up. */
  lemma {:induction false} OffsetIsElapsed(c: TransitionConfig, toReal: float32 -> real, setAt: int, now: int)
    ensures Offset(Setup(c, toReal, setAt), now) == Wrap(now - setAt)
    ensures -TWO_63 <= now - setAt < TWO_63 ==> Offset(Setup(c, toReal, setAt), now) == now - setAt
  {
    var start := StartTimeMillis(c.parameters.startTime);
    var j := WrapIsNear(setAt - start);
    var k := WrapIsNear(now - Wrap(setAt - start));
    var l := WrapIsNear(Wrap(now - Wrap(setAt - start)) - start);
    WrapUnique(now - setAt, Offset(Setup(c, toReal, setAt), now), k - j + l);
    if -TWO_63 <= now - setAt < TWO_63 {
      WrapUnique(now - setAt, now - setAt, 0);
    }
  }

  // ---- A tick's question ----

  /** Whether the schedule still has a value at `now`. */
  predicate Running(t: Transition, now: int, brightness: int) {
    Evaluated(t.curve, Offset(t, now), brightness, t.range) != Exhausted
  }

  /** A transition set up at `setAt` runs at `now` exactly when it has at least two
      entries and the elapsed time lies between its first and its last entry. */
  lemma {:induction false} RunningIff(
      c: TransitionConfig, toReal: float32 -> real, setAt: int, now: int, brightness: int)
    ensures var t := Setup(c, toReal, setAt);
            Running(t, now, brightness)
            <==> |t.curve| >= 2 && t.curve[0].ramp <= Wrap(now - setAt) <= Start(t.curve, |t.curve| - 1)
  {
    var t := Setup(c, toReal, setAt);
    assert NonNegative(t.curve);
    OffsetIsElapsed(c, toReal, setAt, now);
    SucceedsIff(t.curve, Offset(t, now), brightness, t.range);
  }

  // ---- What is reported ----

  function Low16(x: int): uint16 { x % 0x1_0000 }

  function Low32(x: int): uint32 { x % 0x1_0000_0000 }

  function EntriesBack(ps: seq<Point>, fromReal: real -> float32): (es: seq<CurveEntry>)
    ensures |es| == |ps|
    ensures forall i :: 0 <= i < |ps| ==>
      es[i] == CurveEntry(fromReal(ps[i].adjustment), fromReal(ps[i].temperature), Low32(ps[i].ramp), Low32(ps[i].hold))
  {
    seq(|ps|, (i: int) requires 0 <= i < |ps| =>
      CurveEntry(fromReal(ps[i].adjustment), fromReal(ps[i].temperature), Low32(ps[i].ramp), Low32(ps[i].hold)))
  }

  function ReadBack(t: Transition, fromReal: real -> float32): ReadConfig {
    ReadConfig(t.iid, t.parameters, 1,
               CurveConfig(EntriesBack(t.curve, fromReal), t.adjustmentIid,
                           MultiplierRange(Low32(t.range.min), Low32(t.range.max))),
               Low16(t.interval), Low32(t.notify))
  }

  /** The float32 values of these entries survive the conversion to numbers and back. */
  predicate EntriesSurvive(es: seq<CurveEntry>, toReal: float32 -> real, fromReal: real -> float32) {
    forall i :: 0 <= i < |es| ==>
      && fromReal(toReal(es[i].temperature)) == es[i].temperature
      && fromReal(toReal(es[i].adjustmentFactor)) == es[i].adjustmentFactor
  }

  /** Reading a transition back gives what was written, an absent update interval
      replaced by the default. */
  lemma {:induction false} ReadEchoesWrite(
      c: TransitionConfig, toReal: float32 -> real, fromReal: real -> float32, setAt: int)
    requires EntriesSurvive(c.curve.entries, toReal, fromReal)
    ensures ReadBack(Setup(c, toReal, setAt), fromReal)
            == ReadConfig(c.iid, c.parameters, 1, c.curve,
                          if c.updateInterval == 0 then DEFAULT_INTERVAL else c.updateInterval,
                          c.notifyIntervalThreshold)
  {
    assert EntriesBack(Setup(c, toReal, setAt).curve, fromReal) == c.curve.entries;
  }

  function TimeSince(t: Transition, now: int): (n: uint64)
  {
    var e := Offset(t, now);
    if e < 0 then 0 else e
  }
}
