/** The controller object and the writes it answers, when its calls do not overlap.
    Every method is tied to the transition system running that call alone. */
module ControllerObject {
  import opened AdaptiveTlv
  import opened ControllerSteps
  import opened Curve
  import opened Options
  import opened Schedule

  /** Clock readings and brightness that one control write sees. */
  datatype Moment = Moment(setAt: int, tickAt: int, statusAt: int, brightness: int)

  /** How the source's float32 values become float64 values and back. */
  datatype Floats = Floats(toReal: float32 -> real, fromReal: real -> float32)

  datatype Reply =
    | Rejected                     // status -70410
    | Cleared                      // the empty update answer
    | Status(s: StatusResponse)
    | Configuration(c: ReadConfig)
    | Nothing
    | NilDereference

  /** What a host hands back to the controller at start. */
  datatype Saved = NothingSaved | Unreadable | Saved(t: Transition)

  predicate Enables(c: TransitionConfig) {
    c.enabled == 1 && c.curve.entries != []
  }

  /** The state after a control write; `None` is a payload that does not decode. */
  function Written(s: State, w: Option<ControlWrite>, f: Floats, m: Moment): State {
    if w.None? || w.value.update.None? then s
    else if !Enables(w.value.update.value) then Called(s, SwitchOff)
    else Called(s, Enabling(Setup(w.value.update.value, f.toReal, m.setAt), true, m.tickAt, m.brightness))
  }

  /** The answer, given the transition that is active after the write. */
  function ReplyTo(active: Option<Transition>, w: Option<ControlWrite>, f: Floats, m: Moment): Reply {
    if w.None? then Rejected
    else if w.value.update.Some? then
      if !Enables(w.value.update.value) then Cleared
      else if active.None? then NilDereference
      else Status(StatusResponse(active.value.iid, active.value.parameters, TimeSince(active.value, m.statusAt)))
    else if w.value.readIid.Some? then
      if active.None? then Nothing else Configuration(ReadBack(active.value, f.fromReal))
    else Nothing
  }

  // ---- What a write answers ----

  /** The elapsed time at the first tick lies on the written curve. */
  predicate OnCurve(c: TransitionConfig, f: Floats, m: Moment) {
    var ps := Points(c.curve.entries, f.toReal);
    |ps| >= 2 && ps[0].ramp <= Wrap(m.tickAt - m.setAt) <= Start(ps, |ps| - 1)
  }

  lemma {:induction false} SetupKeeps(c: TransitionConfig, toReal: float32 -> real, setAt: int)
    ensures var t := Setup(c, toReal, setAt);
            && t.iid == c.iid && t.parameters == c.parameters
            && t.curve == Points(c.curve.entries, toReal) && t.interval >= 0
  {
  }

  /** An enabling write leaves the controller active with the transition it
      describes, and reports it, exactly when its first tick finds a value; the
      other curves (a single entry, or a first entry with an offset) disable the
      controller and the answer then dereferences the missing transition. */
  lemma {:induction false} EnablingWrite(s: State, w: ControlWrite, f: Floats, m: Moment)
    requires Settled(s) && w.update.Some? && w.update.value.enabled == 1 && |w.update.value.curve.entries| > 0
    ensures var c := w.update.value;
            var t := Setup(c, f.toReal, m.setAt);
            var s' := Written(s, Some(w), f, m);
            var reply := ReplyTo(s'.active, Some(w), f, m);
            && Settled(s')
            && (OnCurve(c, f, m) <==> s'.active == Some(t)) && (s'.active.None? <==> !OnCurve(c, f, m))
            && (OnCurve(c, f, m) ==> s'.count == 1 && s'.armed.Values == {t.interval})
            && (OnCurve(c, f, m) ==> reply == Status(StatusResponse(c.iid, c.parameters, TimeSince(t, m.statusAt))))
            && (reply == NilDereference <==> !OnCurve(c, f, m))
            && (!s.failed ==> (reply == NilDereference <==> s'.failed))
  {
    hide Running, Setup, Start, Called, Wrap, Points;
    var c := w.update.value;
    var t := Setup(c, f.toReal, m.setAt);
    SetupKeeps(c, f.toReal, m.setAt);
    RunningIff(c, f.toReal, m.setAt, m.tickAt, m.brightness);
    CallEffect(s, Enabling(t, true, m.tickAt, m.brightness));
  }

  /** Any other update, with the flag absent or not one, or without entries, leaves no
      transition, no armed timer and the count zero, and is answered so. */
  lemma {:induction false} DisablingWrite(s: State, w: ControlWrite, f: Floats, m: Moment)
    requires Settled(s) && w.update.Some?
    requires w.update.value.enabled != 1 || |w.update.value.curve.entries| == 0
    ensures var s' := Written(s, Some(w), f, m);
            && Settled(s') && s'.active == None && s'.armed == map[] && s'.count == 0 && s'.failed == s.failed
            && ReplyTo(s'.active, Some(w), f, m) == Cleared
  {
    CallEffect(s, SwitchOff);
    hide Called;
  }

  /** A write without an update changes nothing: what cannot be decoded is rejected, a
      read is answered while a transition is active, and nothing else is answered. */
  lemma {:induction false} OtherWrites(s: State, w: Option<ControlWrite>, f: Floats, m: Moment)
    requires w.Some? ==> w.value.update.None?
    ensures Written(s, w, f, m) == s
    ensures var reply := ReplyTo(s.active, w, f, m);
            && (reply == Rejected <==> w.None?)
            && (reply.Configuration? <==> w.Some? && w.value.readIid.Some? && s.active.Some?)
            && (reply.Configuration? || reply == Rejected || reply == Nothing)
  {
  }

  /** With at least two entries, the first at offset zero, an enabling write whose
      tick follows at once always succeeds. */
  lemma {:induction false} PromptWriteSucceeds(s: State, w: ControlWrite, f: Floats, m: Moment)
    requires Settled(s) && w.update.Some? && w.update.value.enabled == 1 && |w.update.value.curve.entries| > 0
    requires m.tickAt == m.setAt
    ensures var es := w.update.value.curve.entries;
            Written(s, Some(w), f, m).active.Some? <==> |es| >= 2 && es[0].transitionOffset == 0
  {
    EnablingWrite(s, w, f, m);
    hide Written, Setup, Wrap, ReplyTo, Settled;
    var ps := Points(w.update.value.curve.entries, f.toReal);
    assert NonNegative(ps);
    WrapUnique(0, 0, 0);
    if |ps| >= 2 {
      StartMonotone(ps, 0, |ps| - 1);
    }
  }

  /** The status of a successful write reports the time since it was set up, and zero if
      the clock went back. */
  lemma {:induction false} StatusTime(c: TransitionConfig, f: Floats, setAt: int, statusAt: int)
    requires -TWO_63 <= statusAt - setAt < TWO_63
    ensures TimeSince(Setup(c, f.toReal, setAt), statusAt) == if statusAt < setAt then 0 else statusAt - setAt
  {
    OffsetIsElapsed(c, f.toReal, setAt, statusAt);
  }

  /** A read that follows a successful enabling write gives back its parameters,
      entries, limits and intervals. */
  lemma {:induction false} ReadAfterWrite(s: State, w: ControlWrite, f: Floats, m: Moment, read: ControlWrite)
    requires Settled(s) && w.update.Some? && w.update.value.enabled == 1 && |w.update.value.curve.entries| > 0
    requires OnCurve(w.update.value, f, m)
    requires read.update.None? && read.readIid.Some?
    requires EntriesSurvive(w.update.value.curve.entries, f.toReal, f.fromReal)
    ensures var c := w.update.value;
            var s' := Written(s, Some(w), f, m);
            && Written(s', Some(read), f, m) == s'
            && ReplyTo(s'.active, Some(read), f, m)
               == Configuration(ReadConfig(c.iid, c.parameters, 1, c.curve,
                                           if c.updateInterval == 0 then DEFAULT_INTERVAL else c.updateInterval,
                                           c.notifyIntervalThreshold))
  {
    EnablingWrite(s, w, f, m);
    ReadEchoesWrite(w.update.value, f.toReal, f.fromReal, m.setAt);
  }

  // ---- The schedule ends ----

  /** Timer callbacks at the given times and nothing else. */
  function Ticked(s: State, times: seq<int>, brightness: int): State
    decreases |times|
  {
    if times == [] then s else Ticked(Called(s, TimerFires(times[0], brightness)), times[1..], brightness)
  }

  /** Each tick comes at least one interval after the one before. */
  predicate Spaced(from: int, times: seq<int>, interval: int)
    decreases |times|
  {
    times == [] || (from + interval <= times[0] && Spaced(times[0], times[1..], interval))
  }

  lemma {:induction false} InactiveStays(s: State, times: seq<int>, brightness: int)
    requires Settled(s) && s.active.None?
    ensures Ticked(s, times, brightness).active.None?
    decreases |times|
  {
    if times != [] {
      CallEffect(s, TimerFires(times[0], brightness));
      InactiveStays(s, times[1..], brightness);
    }
  }

  lemma {:induction false} OneMore(interval: int, k: nat)
    ensures interval * (k + 1) == interval * k + interval
  {
  }

  /** A tick of a settled controller keeps its transition at most until the curve's
      last point. */
  lemma {:induction false} OneTick(
      s: State, c: TransitionConfig, toReal: float32 -> real, setAt: int, now: int, brightness: int)
    requires Settled(s) && s.active == Some(Setup(c, toReal, setAt)) && |s.active.value.curve| > 0
    requires 0 <= now - setAt < TWO_63
    ensures var t := s.active.value;
            var s' := Called(s, TimerFires(now, brightness));
            && Settled(s')
            && (s'.active.None? || s'.active == s.active)
            && (s'.active.Some? ==> now - setAt <= Start(t.curve, |t.curve| - 1))
  {
    hide Running, Setup, Start, Called, Wrap, Points, Offset;
    RunningIff(c, toReal, setAt, now, brightness);
    OffsetIsElapsed(c, toReal, setAt, now);
    CallEffect(s, TimerFires(now, brightness));
  }

  lemma {:induction false} EndsFrom(
      s: State, c: TransitionConfig, toReal: float32 -> real, setAt: int, from: int, times: seq<int>, brightness: int)
    requires Settled(s) && s.active == Some(Setup(c, toReal, setAt)) && |s.active.value.curve| > 0
    requires var t := s.active.value; Spaced(from, times, t.interval) && setAt <= from && t.interval >= 0
    requires forall i :: 0 <= i < |times| ==> times[i] - setAt < TWO_63
    requires var t := s.active.value;
             times != [] && from - setAt + t.interval * |times| > Start(t.curve, |t.curve| - 1)
    ensures Ticked(s, times, brightness).active.None?
    decreases |times|
  {
    hide Setup, Start, Called, Settled;
    var t, now := s.active.value, times[0];
    OneTick(s, c, toReal, setAt, now, brightness);
    OneMore(t.interval, |times| - 1);
    OneMore(t.interval, 0);
    var s' := Called(s, TimerFires(now, brightness));
    if s'.active.None? {
      InactiveStays(s', times[1..], brightness);
    } else if times[1..] != [] {
      EndsFrom(s', c, toReal, setAt, now, times[1..], brightness);
    }
  }

  /** A controller left to its timer switches itself off: after more ticks than the
      curve has intervals it is inactive. */
  lemma {:induction false} ScheduleEnds(
      s: State, w: ControlWrite, f: Floats, m: Moment, times: seq<int>, brightness: int)
    requires Settled(s) && w.update.Some? && w.update.value.enabled == 1 && |w.update.value.curve.entries| > 0
    requires OnCurve(w.update.value, f, m)
    requires var t := Setup(w.update.value, f.toReal, m.setAt);
             && Spaced(m.setAt, times, t.interval)
             && t.interval * |times| > Start(t.curve, |t.curve| - 1)
    requires times != [] && forall i :: 0 <= i < |times| ==> times[i] - m.setAt < TWO_63
    ensures Ticked(Written(s, Some(w), f, m), times, brightness).active.None?
  {
    EnablingWrite(s, w, f, m);
    SetupKeeps(w.update.value, f.toReal, m.setAt);
    hide Setup, Start, Called, Written, Wrap, ReplyTo, Settled, Points, Spaced;
    EndsFrom(Written(s, Some(w), f, m), w.update.value, f.toReal, m.setAt, m.setAt, times, brightness);
  }

  // ---- The object ----

  /** A changed brightness causes a tick exactly while a transition is active. */
  lemma {:induction false} BrightnessCalled(s: State, now: int, brightness: int)
    requires Settled(s)
    ensures Called(s, Brightness(now, brightness))
            == if s.active.Some? then Alone(s.(threads := [Ticking(false)]), now, brightness) else s
  {
    var checking := s.(threads := [Checking]);
    assert Apply(s, BrightnessChanged) == checking;
    RunOnly(checking, Checking, now, brightness);
  }

  class Controller {
    var active: Option<Transition>
    var timer: Option<nat>
    var armed: map<nat, int>
    var nextId: nat
    var count: int
    /** An answer has dereferenced a missing transition. */
    var failed: bool

    ghost function View(): State
      reads this
    {
      State(active, timer, armed, nextId, count, failed, [])
    }

    constructor ()
      ensures View() == INITIAL && Settled(View())
    {
      active, timer, armed, nextId, count, failed := None, None, map[], 0, 0, false;
    }

    predicate IsActive()
      reads this
    {
      active.Some?
    }

    method StopTimer()
      modifies this`armed
      ensures armed == Stopped(old(View()))
    {
      if timer.Some? {
        armed := armed - {timer.value};
      }
    }

    /** Evaluates the schedule, hands the limited value to the lamp and rearms the
        timer; a schedule without a value is disabled. `mired` is what the lamp
        gets, if the source defines it. */
    method Tick(now: int, brightness: int, lamp: Bounds) returns (mired: Option<int>)
      requires Settled(View())
               || (count == 1 && active.Some? && (forall id :: id in armed ==> timer == Some(id)))
      modifies this
      ensures View() == Alone(old(View()).(threads := [Ticking(false)]), now, brightness)
      ensures mired == match old(active)
                       case None => None
                       case Some(t) =>
                         match Evaluated(t.curve, Offset(t, now), brightness, t.range)
                         case Mired(v) => Some(Clamp(lamp, v))
                         case Undefined => None
                         case Exhausted => None
    {
      ghost var before := View();
      if active.None? {
        RunOnly(before.(threads := [Ticking(false)]), Ticking(false), now, brightness);
        return None;
      }
      TickAlone(before.(threads := [Ticking(false)]), false, now, brightness);
      var t := active.value;
      var outcome := Evaluate(t.curve, Offset(t, now), brightness, t.range);
      if outcome.Exhausted? {
        Disable();
        return None;
      }
      mired := if outcome.Mired? then Some(Clamp(lamp, outcome.value)) else None;
      ArmedOnlyTimer(before);
      StopTimer();
      armed := armed[nextId := t.interval];
      timer := Some(nextId);
      nextId := nextId + 1;
    }

    method Disable()
      requires forall id :: id in armed ==> timer == Some(id)
      modifies this
      ensures View() == Alone(old(View()).(threads := [Disabling(false)]), 0, 0)
      ensures View() == if old(active).Some? then Inactive(old(View()))
                        else old(View()).(timer := None, armed := map[])
    {
      DisableAlone(View().(threads := [Disabling(false)]), false, 0, 0);
      ArmedOnlyTimer(View());
      StopTimer();
      timer := None;
      var wasActive := active.Some?;
      active := None;
      if wasActive {
        count := 0;
      }
    }

    /** Makes a transition the active one, sets the count and ticks. */
    method StartTransition(t: Transition, now: int, brightness: int, lamp: Bounds)
      requires Settled(View())
      modifies this
      ensures View() == Called(old(View()), Enabling(t, false, now, brightness))
      ensures Settled(View())
    {
      ghost var before := View();
      ghost var s1 := before.(active := Some(t), threads := [CountOne(false)]);
      assert Apply(before, Activate(t, false)) == s1;
      RunOnly(s1, CountOne(false), now, brightness);
      CallSettles(before, Enabling(t, false, now, brightness));
      active := Some(t);
      count := 1;
      var applied := Tick(now, brightness, lamp);
    }

    method Enable(c: TransitionConfig, f: Floats, m: Moment, lamp: Bounds)
      requires Settled(View())
      modifies this
      ensures View() == Called(old(View()), Enabling(Setup(c, f.toReal, m.setAt), false, m.tickAt, m.brightness))
      ensures Settled(View())
    {
      StartTransition(Setup(c, f.toReal, m.setAt), m.tickAt, m.brightness, lamp);
    }

    /** Takes up a saved transition; nothing saved is no error, an unreadable one is,
        and both change nothing. */
    method Restore(saved: Saved, now: int, brightness: int, lamp: Bounds) returns (ok: bool)
      requires Settled(View())
      modifies this
      ensures View() == match saved
                        case NothingSaved => old(View())
                        case Unreadable => old(View())
                        case Saved(t) => Called(old(View()), Enabling(t, false, now, brightness))
      ensures Settled(View()) && ok == !saved.Unreadable?
    {
      match saved {
        case NothingSaved =>
        case Unreadable => return false;
        case Saved(t) => StartTransition(t, now, brightness, lamp);
      }
      ok := true;
    }

    method HandleBrightnessChanged(now: int, brightness: int, lamp: Bounds)
      requires Settled(View())
      modifies this
      ensures View() == Called(old(View()), Brightness(now, brightness))
      ensures Settled(View())
    {
      hide Alone, Called, Settled;
      BrightnessCalled(View(), now, brightness);
      CallSettles(View(), Brightness(now, brightness));
      if IsActive() {
        var applied := Tick(now, brightness, lamp);
      }
    }

    method HandleControlWrite(w: Option<ControlWrite>, f: Floats, m: Moment, lamp: Bounds) returns (r: Reply)
      requires Settled(View())
      modifies this
      ensures View() == Written(old(View()), w, f, m) && Settled(View())
      ensures r == ReplyTo(active, w, f, m)
    {
      if w.None? {
        return Rejected;
      }
      if w.value.update.Some? {
        var c := w.value.update.value;
        if c.enabled != 1 || |c.curve.entries| == 0 {
          ghost var before := View();
          assert Apply(before, ControllerSteps.Disable) == before.(threads := [Disabling(false)]);
          CallEffect(before, SwitchOff);
          Disable();
          return Cleared;
        }
        ghost var before, t := View(), Setup(c, f.toReal, m.setAt);
        CallEffect(before, Enabling(t, false, m.tickAt, m.brightness));
        CallEffect(before, Enabling(t, true, m.tickAt, m.brightness));
        Enable(c, f, m, lamp);
        if active.None? {
          failed := true;
          return NilDereference;
        }
        var at := active.value;
        return Status(StatusResponse(at.iid, at.parameters, TimeSince(at, m.statusAt)));
      }
      if w.value.readIid.Some? {
        if active.None? {
          return Nothing;
        }
        return Configuration(ReadBack(active.value, f.fromReal));
      }
      return Nothing;
    }
  }
}
