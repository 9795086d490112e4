/** The Adaptive Lighting controller as a transition system. One step is one
    critical section of the source, or one write of the active-transition count
    between two of them; calls, timer callbacks and their steps interleave freely. */
module ControllerSteps {
  import opened Options
  import opened Schedule

  /** Where a thread stands. `answers` marks the thread of a control write, which
      reports the active transition when its enable is through. */
  datatype Pc =
    | CountOne(answers: bool)                // activated; about to set the count to one and tick
    | Ticking(answers: bool)                 // at the start of a tick
    | Applied(interval: int, answers: bool)  // has evaluated and applied; about to rearm the timer
    | Disabling(answers: bool)               // at the start of a disable
    | CountZero(answers: bool)               // has cleared the state; about to set the count to zero
    | Answering                              // about to read the active transition for the answer
    | Checking                               // brightness changed; about to ask whether active

  /** `timer` is the timer last created and not cleared since; `armed` holds the
      timers that will still fire, with their intervals; `failed` says that some
      answer dereferenced a missing transition. */
  datatype State = State(
    active: Option<Transition>, timer: Option<nat>, armed: map<nat, int>, nextId: nat, count: int,
    failed: bool, threads: seq<Pc>)

  const INITIAL := State(None, None, map[], 0, 0, false, [])

  datatype Event =
    | Activate(t: Transition, answers: bool)
    | Disable
    | BrightnessChanged
    | Fire(id: nat)
    | Run(thread: nat, now: int, brightness: int)

  predicate Can(s: State, e: Event) {
    match e
    case Activate(t, answers) => true
    case Disable => true
    case BrightnessChanged => true
    case Fire(id) => id in s.armed
    case Run(i, now, b) => i < |s.threads|
  }

  function Stopped(s: State): map<nat, int> {
    if s.timer.Some? then s.armed - {s.timer.value} else s.armed
  }

  function Rearmed(s: State, interval: int): State {
    s.(armed := Stopped(s)[s.nextId := interval], timer := Some(s.nextId), nextId := s.nextId + 1)
  }

  function Cleared(s: State): State {
    s.(armed := Stopped(s), timer := None, active := None)
  }

  /** How a thread goes on when its tick or disable is through. */
  function Through(answers: bool): seq<Pc> {
    if answers then [Answering] else []
  }

  /** The shared state after one section of a thread, and how the thread goes on. */
  function Section(s: State, pc: Pc, now: int, b: int): (State, seq<Pc>) {
    match pc
    case CountOne(a) => (s.(count := 1), [Ticking(a)])
    case Ticking(a) =>
      if s.active.None? then (s, Through(a))
      else if Running(s.active.value, now, b) then (s, [Applied(s.active.value.interval, a)])
      else (s, [Disabling(a)])
    case Applied(interval, a) => (if s.active.None? then s else Rearmed(s, interval), Through(a))
    case Disabling(a) => (Cleared(s), if s.active.Some? then [CountZero(a)] else Through(a))
    case CountZero(a) => (s.(count := 0), Through(a))
    case Answering => (s.(failed := s.failed || s.active.None?), [])
    case Checking => (s, if s.active.Some? then [Ticking(false)] else [])
  }

  function Replace(threads: seq<Pc>, i: nat, next: seq<Pc>): seq<Pc>
    requires i < |threads|
  {
    threads[..i] + next + threads[i + 1..]
  }

  function Apply(s: State, e: Event): State
    requires Can(s, e)
  {
    match e
    case Activate(t, answers) => s.(active := Some(t), threads := s.threads + [CountOne(answers)])
    case Disable => s.(threads := s.threads + [Disabling(false)])
    case BrightnessChanged => s.(threads := s.threads + [Checking])
    case Fire(id) => s.(armed := s.armed - {id}, threads := s.threads + [Ticking(false)])
    case Run(i, now, b) =>
      var (s', next) := Section(s, s.threads[i], now, b);
      s'.(threads := Replace(s.threads, i, next))
  }

  // ---- Every interleaving ----

  predicate Legal(s: State, events: seq<Event>)
    decreases |events|
  {
    events == [] || (Can(s, events[0]) && Legal(Apply(s, events[0]), events[1..]))
  }

  function After(s: State, events: seq<Event>): State
    requires Legal(s, events)
    decreases |events|
  {
    if events == [] then s else After(Apply(s, events[0]), events[1..])
  }

  /** A thread that, finding the controller active, will arm a timer or disable. */
  predicate WillSettle(pc: Pc) {
    pc.CountOne? || pc.Ticking? || pc.Applied? || pc.Disabling?
  }

  predicate SomeSettles(threads: seq<Pc>) {
    exists i :: 0 <= i < |threads| && WillSettle(threads[i])
  }

  predicate TimersSafe(s: State) {
    && (forall id :: id in s.armed ==> s.timer == Some(id))
    && (s.timer.Some? ==> s.timer.value < s.nextId)
    && (s.active.None? ==> s.armed == map[])
    && (s.count == 0 || s.count == 1)
  }

  predicate Safe(s: State) {
    TimersSafe(s) && (s.active.Some? ==> s.armed != map[] || SomeSettles(s.threads))
  }

  lemma {:induction false} SettlesAppended(threads: seq<Pc>, pc: Pc)
    ensures SomeSettles(threads) || WillSettle(pc) ==> SomeSettles(threads + [pc])
  {
    var all := threads + [pc];
    assert all[|threads|] == pc;
    if SomeSettles(threads) {
      var i :| 0 <= i < |threads| && WillSettle(threads[i]);
      assert all[i] == threads[i];
    }
  }

  lemma {:induction false} ReplacedAt(threads: seq<Pc>, i: nat, next: seq<Pc>)
    requires i < |threads|
    ensures var all := Replace(threads, i, next);
            && |all| == |threads| - 1 + |next|
            && (forall j :: 0 <= j < i ==> all[j] == threads[j])
            && (forall j :: 0 <= j < |next| ==> all[i + j] == next[j])
            && (forall j :: i < j < |threads| ==> all[j - 1 + |next|] == threads[j])
  {
  }

  /** A settling thread stays, or goes on as one. */
  lemma {:induction false} SettlesReplaced(threads: seq<Pc>, i: nat, next: seq<Pc>)
    requires i < |threads| && SomeSettles(threads)
    requires WillSettle(threads[i]) ==> |next| == 1 && WillSettle(next[0])
    ensures SomeSettles(Replace(threads, i, next))
  {
    ReplacedAt(threads, i, next);
    var j :| 0 <= j < |threads| && WillSettle(threads[j]);
    var all := Replace(threads, i, next);
    if j < i {
      assert WillSettle(all[j]);
    } else if j == i {
      assert all[i + 0] == next[0] && WillSettle(all[i]);
    } else {
      assert WillSettle(all[j - 1 + |next|]);
    }
  }

  lemma {:induction false} CardinalityAtMostOne(keys: set<nat>, k: nat)
    requires keys <= {k}
    ensures |keys| <= 1 && (keys != {} ==> |keys| == 1)
  {
    assert keys == {} || keys == {k};
  }

  lemma {:induction false} ArmedOnlyTimer(s: State)
    requires forall id :: id in s.armed ==> s.timer == Some(id)
    ensures Stopped(s) == map[] && |s.armed| <= 1
  {
    if s.timer.None? {
      assert s.armed == map[];
    } else {
      assert s.armed.Keys <= {s.timer.value};
      CardinalityAtMostOne(s.armed.Keys, s.timer.value);
      assert |s.armed| == |s.armed.Keys|;
    }
  }

  lemma {:induction false} SectionKeepsTimers(s: State, pc: Pc, now: int, b: int)
    requires TimersSafe(s)
    ensures TimersSafe(Section(s, pc, now, b).0)
  {
    ArmedOnlyTimer(s);
  }

  lemma {:induction false} RearmedIsArmed(s: State)
    ensures forall interval :: Rearmed(s, interval).armed != map[]
  {
    forall interval
      ensures Rearmed(s, interval).armed != map[]
    {
      assert s.nextId in Rearmed(s, interval).armed;
    }
  }

  /** A section that leaves the controller active without an armed timer found it so,
      and does not end a settling thread. */
  lemma {:induction false} SectionSettles(s: State, pc: Pc, now: int, b: int)
    requires var s' := Section(s, pc, now, b).0; s'.active.Some? && s'.armed == map[]
    ensures s.active.Some? && s.armed == map[]
    ensures var next := Section(s, pc, now, b).1;
            WillSettle(pc) ==> |next| == 1 && WillSettle(next[0])
  {
    RearmedIsArmed(s);
    match pc
    case CountOne(a) =>
    case Ticking(a) =>
    case Applied(interval, a) =>
    case Disabling(a) =>
    case CountZero(a) =>
    case Answering =>
    case Checking =>
  }

  lemma {:induction false} RunKeepsSafe(s: State, i: nat, now: int, b: int)
    requires Safe(s) && i < |s.threads|
    ensures Safe(Apply(s, Run(i, now, b)))
  {
    hide Section, Replace, SomeSettles, TimersSafe, WillSettle;
    var pc := s.threads[i];
    var (s', next) := Section(s, pc, now, b);
    SectionKeepsTimers(s, pc, now, b);
    TimersIgnoreThreads(s', Replace(s.threads, i, next));
    if s'.active.Some? && s'.armed == map[] {
      SectionSettles(s, pc, now, b);
      assert SomeSettles(s.threads);
      SettlesReplaced(s.threads, i, next);
    }
  }

  lemma {:induction false} TimersIgnoreThreads(s: State, threads: seq<Pc>)
    ensures TimersSafe(s.(threads := threads)) <==> TimersSafe(s)
  {
  }

  lemma {:induction false} StepKeepsSafe(s: State, e: Event)
    requires Safe(s) && Can(s, e)
    ensures Safe(Apply(s, e))
  {
    match e
    case Activate(t, answers) => SettlesAppended(s.threads, CountOne(answers));
    case Disable => SettlesAppended(s.threads, Disabling(false));
    case BrightnessChanged => SettlesAppended(s.threads, Checking);
    case Fire(id) => SettlesAppended(s.threads, Ticking(false));
    case Run(i, now, b) => RunKeepsSafe(s, i, now, b);
  }

  /** In every run from any safe state: at most one timer is armed and it is the
      one that the controller remembers, none is armed while inactive, and an
      active controller has an armed timer or a thread that will arm one or
      disable. */
  lemma {:induction false} EveryInterleaving(s: State, events: seq<Event>)
    requires Safe(s) && Legal(s, events)
    ensures var s' := After(s, events);
            && Safe(s')
            && |s'.armed| <= 1
            && (forall id :: id in s'.armed ==> s'.timer == Some(id))
            && (s'.active.None? ==> s'.armed == map[])
            && (s'.active.Some? ==> s'.armed != map[] || SomeSettles(s'.threads))
    decreases |events|
  {
    hide Apply;
    if events == [] {
      ArmedOnlyTimer(s);
    } else {
      StepKeepsSafe(s, events[0]);
      EveryInterleaving(Apply(s, events[0]), events[1..]);
    }
  }

  /** Once no thread is in flight the controller is active exactly when one timer
      is armed. */
  lemma {:induction false} SettledIff(events: seq<Event>)
    requires Legal(INITIAL, events) && After(INITIAL, events).threads == []
    ensures var s := After(INITIAL, events); s.active.Some? <==> |s.armed| == 1
  {
    EveryInterleaving(INITIAL, events);
    var s := After(INITIAL, events);
    if s.active.Some? {
      var id :| id in s.armed;
      assert s.armed.Keys == {id};
      assert |s.armed| == |s.armed.Keys|;
    }
  }

  // ---- Threads end ----

  function Weight(pc: Pc): nat {
    match pc
    case CountOne(a) => 5
    case Ticking(a) => 4
    case Applied(interval, a) => 2
    case Disabling(a) => 3
    case CountZero(a) => 2
    case Answering => 1
    case Checking => 5
  }

  function TotalWeight(threads: seq<Pc>): nat {
    if threads == [] then 0 else Weight(threads[0]) + TotalWeight(threads[1..])
  }

  lemma {:induction false} WeightAppend(xs: seq<Pc>, ys: seq<Pc>)
    ensures TotalWeight(xs + ys) == TotalWeight(xs) + TotalWeight(ys)
  {
    if xs == [] {
      assert xs + ys == ys;
    } else {
      assert (xs + ys)[1..] == xs[1..] + ys;
      WeightAppend(xs[1..], ys);
    }
  }

  lemma {:induction false} NextIsLighter(s: State, pc: Pc, now: int, b: int)
    ensures TotalWeight(Section(s, pc, now, b).1) < Weight(pc)
  {
    hide Running;
    var next := Section(s, pc, now, b).1;
    assert next == [] || TotalWeight(next) == Weight(next[0]) + TotalWeight([]);
  }

  lemma {:induction false} WeightReplaced(threads: seq<Pc>, i: nat, next: seq<Pc>)
    requires i < |threads|
    ensures TotalWeight(Replace(threads, i, next)) == TotalWeight(threads) - Weight(threads[i]) + TotalWeight(next)
  {
    var before, after := threads[..i], threads[i + 1..];
    assert threads == before + ([threads[i]] + after);
    assert Replace(threads, i, next) == before + (next + after);
    WeightAppend(before, [threads[i]] + after);
    WeightAppend(before, next + after);
    WeightAppend(next, after);
    assert ([threads[i]] + after)[1..] == after;
  }

  lemma {:induction false} SectionShrinks(s: State, i: nat, now: int, b: int)
    requires i < |s.threads|
    ensures TotalWeight(Apply(s, Run(i, now, b)).threads) < TotalWeight(s.threads)
  {
    hide Section, Replace, TotalWeight, Weight;
    NextIsLighter(s, s.threads[i], now, b);
    WeightReplaced(s.threads, i, Section(s, s.threads[i], now, b).1);
  }

  predicate OnlyRuns(events: seq<Event>) {
    forall i :: 0 <= i < |events| ==> events[i].Run?
  }

  /** Without new calls or timer firings, the threads in flight take only so many
      steps, however they interleave. */
  lemma {:induction false} ThreadsFinish(s: State, events: seq<Event>)
    requires Legal(s, events) && OnlyRuns(events)
    ensures |events| + TotalWeight(After(s, events).threads) <= TotalWeight(s.threads)
    decreases |events|
  {
    if events != [] {
      SectionShrinks(s, events[0].thread, events[0].now, events[0].brightness);
      ThreadsFinish(Apply(s, events[0]), events[1..]);
    }
  }

  /** A run in which the threads in flight end and nothing else happens. */
  ghost predicate Completion(s: State, events: seq<Event>) {
    OnlyRuns(events) && Legal(s, events) && After(s, events).threads == []
  }

  lemma {:induction false} RunThen(s: State, i: nat, now: int, b: int, events: seq<Event>)
    requires i < |s.threads| && Completion(Apply(s, Run(i, now, b)), events)
    ensures var all := [Run(i, now, b)] + events;
            Completion(s, all) && After(s, all) == After(Apply(s, Run(i, now, b)), events)
  {
    var all := [Run(i, now, b)] + events;
    assert all[1..] == events;
    forall k | 0 <= k < |all|
      ensures all[k].Run?
    {
      assert k > 0 ==> all[k] == events[k - 1];
    }
  }

  lemma {:induction false} RestOf(s: State, events: seq<Event>)
    requires Completion(s, events) && events != []
    ensures events[0].Run? && events[0].thread < |s.threads|
    ensures Completion(Apply(s, events[0]), events[1..])
    ensures After(s, events) == After(Apply(s, events[0]), events[1..])
  {
    forall k | 0 <= k < |events[1..]|
      ensures events[1..][k].Run?
    {
      assert events[1..][k] == events[k + 1];
    }
  }

  // ---- Calls that do not overlap ----

  /** Runs the first thread to its end, then the next. */
  function Alone(s: State, now: int, b: int): State
    decreases TotalWeight(s.threads)
  {
    if s.threads == [] then s
    else
      SectionShrinks(s, 0, now, b);
      Alone(Apply(s, Run(0, now, b)), now, b)
  }

  datatype Call =
    | Enabling(t: Transition, answers: bool, now: int, brightness: int)
    | SwitchOff
    | Brightness(now: int, brightness: int)
    | TimerFires(now: int, brightness: int)

  function Called(s: State, c: Call): State {
    match c
    case Enabling(t, answers, now, b) => Alone(Apply(s, Activate(t, answers)), now, b)
    case SwitchOff => Alone(Apply(s, Disable), 0, 0)
    case Brightness(now, b) => Alone(Apply(s, BrightnessChanged), now, b)
    case TimerFires(now, b) =>
      if s.timer.Some? && s.timer.value in s.armed then Alone(Apply(s, Fire(s.timer.value)), now, b) else s
  }

  function CalledAll(s: State, calls: seq<Call>): State
    decreases |calls|
  {
    if calls == [] then s else CalledAll(Called(s, calls[0]), calls[1..])
  }

  /** A settled state between calls. */
  predicate Settled(s: State) {
    && s.threads == []
    && (s.timer.Some? ==> s.timer.value < s.nextId)
    && (forall id :: id in s.armed ==> s.timer == Some(id))
    && (s.active.Some? <==> s.armed != map[])
    && s.count == if s.active.Some? then 1 else 0
  }

  function Inactive(s: State): State {
    s.(active := None, timer := None, armed := map[], count := 0, threads := [])
  }

  function Armed(s: State, t: Transition): State {
    s.(active := Some(t), timer := Some(s.nextId), armed := map[s.nextId := t.interval],
       nextId := s.nextId + 1, count := 1, threads := [])
  }

  /** The answer of a control write, if there is one, on a state without threads. */
  function Answered(s: State, answers: bool): State {
    s.(failed := s.failed || (answers && s.active.None?), threads := [])
  }

  lemma {:induction false} RunOnly(s: State, pc: Pc, now: int, b: int)
    requires s.threads == [pc]
    ensures var (s', next) := Section(s, pc, now, b);
            Alone(s, now, b) == Alone(s'.(threads := next), now, b)
  {
    var (s', next) := Section(s, pc, now, b);
    assert Replace(s.threads, 0, next) == next;
  }

  lemma {:induction false} AnswerAlone(s: State, answers: bool, now: int, b: int)
    requires s.threads == Through(answers)
    ensures Alone(s, now, b) == Answered(s, answers)
  {
    if answers {
      RunOnly(s, Answering, now, b);
    }
  }

  lemma {:induction false} DisableAlone(s: State, answers: bool, now: int, b: int)
    requires s.threads == [Disabling(answers)] && (forall id :: id in s.armed ==> s.timer == Some(id))
    ensures Alone(s, now, b)
            == Answered(if s.active.Some? then Inactive(s) else s.(timer := None, armed := map[]), answers)
  {
    ArmedOnlyTimer(s);
    RunOnly(s, Disabling(answers), now, b);
    var s1 := Cleared(s);
    if s.active.Some? {
      RunOnly(s1.(threads := [CountZero(answers)]), CountZero(answers), now, b);
      AnswerAlone(s1.(count := 0, threads := Through(answers)), answers, now, b);
    } else {
      AnswerAlone(s1.(threads := Through(answers)), answers, now, b);
    }
  }

  lemma {:induction false} TickAlone(s: State, answers: bool, now: int, b: int)
    requires s.threads == [Ticking(answers)] && s.count == 1 && s.active.Some?
    requires forall id :: id in s.armed ==> s.timer == Some(id)
    ensures Alone(s, now, b)
            == Answered(if Running(s.active.value, now, b) then Armed(s, s.active.value) else Inactive(s), answers)
  {
    hide Alone;
    if Running(s.active.value, now, b) {
      TickRearms(s, answers, now, b);
    } else {
      RunOnly(s, Ticking(answers), now, b);
      DisableAlone(s.(threads := [Disabling(answers)]), answers, now, b);
    }
  }

  lemma {:induction false} TickRearms(s: State, answers: bool, now: int, b: int)
    requires s.threads == [Ticking(answers)] && s.count == 1 && s.active.Some?
    requires (forall id :: id in s.armed ==> s.timer == Some(id)) && Running(s.active.value, now, b)
    ensures Alone(s, now, b) == Answered(Armed(s, s.active.value), answers)
  {
    hide Alone, Running;
    var t := s.active.value;
    RunOnly(s, Ticking(answers), now, b);
    ArmedOnlyTimer(s);
    RunOnly(s.(threads := [Applied(t.interval, answers)]), Applied(t.interval, answers), now, b);
    AnswerAlone(Rearmed(s, t.interval).(threads := Through(answers)), answers, now, b);
  }

  lemma {:induction false} EnablingEffect(s: State, t: Transition, answers: bool, now: int, b: int)
    requires Settled(s)
    ensures Called(s, Enabling(t, answers, now, b))
            == if Running(t, now, b) then Armed(s, t) else Inactive(s).(failed := s.failed || answers)
  {
    var s1 := s.(active := Some(t), threads := [CountOne(answers)]);
    assert Apply(s, Activate(t, answers)) == s1;
    RunOnly(s1, CountOne(answers), now, b);
    TickAlone(s1.(count := 1, threads := [Ticking(answers)]), answers, now, b);
  }

  lemma {:induction false} SwitchOffEffect(s: State)
    requires Settled(s)
    ensures Called(s, SwitchOff) == if s.active.Some? then Inactive(s) else s.(timer := None)
  {
    DisableAlone(s.(threads := [Disabling(false)]), false, 0, 0);
  }

  /** A tick of a settled controller. */
  function TickEffect(s: State, now: int, b: int): State {
    if s.active.None? then s
    else if Running(s.active.value, now, b) then Armed(s, s.active.value) else Inactive(s)
  }

  lemma {:induction false} BrightnessEffect(s: State, now: int, b: int)
    requires Settled(s)
    ensures Called(s, Brightness(now, b)) == TickEffect(s, now, b)
  {
    RunOnly(s.(threads := [Checking]), Checking, now, b);
    if s.active.Some? {
      TickAlone(s.(threads := [Ticking(false)]), false, now, b);
    }
  }

  lemma {:induction false} TimerEffect(s: State, now: int, b: int)
    requires Settled(s)
    ensures Called(s, TimerFires(now, b)) == TickEffect(s, now, b)
  {
    if s.active.Some? {
      var id :| id in s.armed;
      assert s.timer == Some(id);
      TickAlone(s.(armed := s.armed - {id}, threads := [Ticking(false)]), false, now, b);
    }
  }

  /** What each call leaves behind when nothing overlaps it; the answer to an enabling
      write fails exactly when its tick finds no value. */
  lemma {:induction false} CallEffect(s: State, c: Call)
    requires Settled(s)
    ensures Called(s, c) ==
      match c
      case Enabling(t, answers, now, b) =>
        if Running(t, now, b) then Armed(s, t) else Inactive(s).(failed := s.failed || answers)
      case SwitchOff => if s.active.Some? then Inactive(s) else s.(timer := None)
      case Brightness(now, b) => TickEffect(s, now, b)
      case TimerFires(now, b) => TickEffect(s, now, b)
  {
    hide Called, Running, Alone;
    match c
    case Enabling(t, answers, now, b) => EnablingEffect(s, t, answers, now, b);
    case SwitchOff => SwitchOffEffect(s);
    case Brightness(now, b) => BrightnessEffect(s, now, b);
    case TimerFires(now, b) => TimerEffect(s, now, b);
  }

  lemma {:induction false} CallSettles(s: State, c: Call)
    requires Settled(s)
    ensures Settled(Called(s, c))
  {
    hide Called, Running;
    CallEffect(s, c);
    match c
    case Enabling(t, answers, now, b) =>
    case SwitchOff =>
    case Brightness(now, b) =>
    case TimerFires(now, b) =>
  }

  /** In every run of calls that do not overlap, after each call the count is one
      exactly when the controller is active, and exactly then one timer is armed. */
  lemma {:induction false} CountMatchesActive(s: State, calls: seq<Call>)
    requires Settled(s)
    ensures var s' := CalledAll(s, calls);
            && Settled(s')
            && (s'.count == 1 <==> s'.active.Some?)
            && (|s'.armed| == 1 <==> s'.active.Some?)
    decreases |calls|
  {
    if calls == [] {
      ArmedOnlyTimer(s);
      if s.armed != map[] {
        assert s.armed.Keys != {};
        CardinalityAtMostOne(s.armed.Keys, s.timer.value);
        assert |s.armed| == |s.armed.Keys|;
      }
    } else {
      CallSettles(s, calls[0]);
      CountMatchesActive(Called(s, calls[0]), calls[1..]);
    }
  }
}
