/** Calls that overlap: exactly when the active-transition count comes out right and
    when the answer to a control write finds its transition. */
module ControllerOverlap {
  import opened AdaptiveTlv
  import opened ControllerSteps
  import opened Curve
  import opened Options
  import opened Schedule

  // ---- The clock ----

  /** The clock readings that are still to come. */
  datatype Window = Window(from: int, until: int)

  predicate Within(w: Window, now: int) {
    w.from <= now <= w.until
  }

  function Later(w: Window, now: int): Window {
    w.(from := now)
  }

  /** The clock never goes back and stays within the window. */
  predicate Clocked(events: seq<Event>, w: Window)
    decreases |events|
  {
    events != [] ==>
      events[0].Run? && Within(w, events[0].now) && Clocked(events[1..], Later(w, events[0].now))
  }

  /** A completion on such a clock. */
  ghost predicate Completes(s: State, w: Window, events: seq<Event>) {
    Completion(s, events) && Clocked(events, w)
  }

  // ---- What a thread may still do to the active transition ----

  /** A tick may find the schedule over. */
  ghost predicate CanExhaust(t: Transition, w: Window) {
    exists now, b :: Within(w, now) && !Running(t, now, b)
  }

  /** A tick may find a value. */
  ghost predicate CanRun(t: Transition, w: Window) {
    exists now, b :: Within(w, now) && Running(t, now, b)
  }

  /** On the way to a tick. */
  predicate WillTick(pc: Pc) {
    pc.CountOne? || pc.Ticking? || pc.Checking?
  }

  /** The thread may clear the transition. */
  ghost predicate MayClear(pc: Pc, t: Transition, w: Window) {
    pc.Disabling? || (WillTick(pc) && CanExhaust(t, w))
  }

  ghost predicate SomeClears(threads: seq<Pc>, t: Transition, w: Window) {
    exists i :: 0 <= i < |threads| && MayClear(threads[i], t, w)
  }

  predicate HasCountOne(threads: seq<Pc>) {
    exists i :: 0 <= i < |threads| && threads[i].CountOne?
  }

  predicate HasCountZero(threads: seq<Pc>) {
    exists i :: 0 <= i < |threads| && threads[i].CountZero?
  }

  /** The transition may be there at the end. */
  ghost predicate CanStay(threads: seq<Pc>, t: Transition, w: Window) {
    forall i :: 0 <= i < |threads| ==> !threads[i].Disabling? && (WillTick(threads[i]) ==> CanRun(t, w))
  }

  /** A pending count of one and another thread that may clear the transition. */
  ghost predicate Crossing(threads: seq<Pc>, t: Transition, w: Window) {
    exists i, j ::
      0 <= i < |threads| && 0 <= j < |threads| && i != j && threads[i].CountOne? && MayClear(threads[j], t, w)
  }

  /** Inactive: no count of one is pending, and the count is not one or about to be
      cleared. Active: no count of one is pending beside another thread that may clear
      the transition; and if the transition may stay, no count of zero is pending, and
      the count is one or about to be set. */
  ghost predicate CountSafe(s: State, w: Window) {
    match s.active
    case None => !HasCountOne(s.threads) && (s.count != 1 || HasCountZero(s.threads))
    case Some(t) =>
      && !Crossing(s.threads, t, w)
      && (CanStay(s.threads, t, w) ==> !HasCountZero(s.threads) && (s.count == 1 || HasCountOne(s.threads)))
  }

  /** As time passes less can happen. */
  lemma {:induction false} LessLater(t: Transition, w: Window, now: int)
    requires Within(w, now)
    ensures CanExhaust(t, Later(w, now)) ==> CanExhaust(t, w)
    ensures CanRun(t, Later(w, now)) ==> CanRun(t, w)
  {
    if CanExhaust(t, Later(w, now)) {
      var n, b :| Within(Later(w, now), n) && !Running(t, n, b);
      assert Within(w, n);
    }
    if CanRun(t, Later(w, now)) {
      var n, b :| Within(Later(w, now), n) && Running(t, n, b);
      assert Within(w, n);
    }
  }

  // ---- Replacing one thread ----

  lemma {:induction false} OnesOriginate(threads: seq<Pc>, i: nat, next: seq<Pc>)
    requires i < |threads| && |next| <= 1 && (|next| == 1 ==> !next[0].CountOne?)
    ensures HasCountOne(Replace(threads, i, next)) ==> HasCountOne(threads)
  {
    var all := Replace(threads, i, next);
    if p :| 0 <= p < |all| && all[p].CountOne? {
      assert threads[if p < i then p else p + 1 - |next|].CountOne?;
    }
  }

  lemma {:induction false} OneStays(threads: seq<Pc>, i: nat, next: seq<Pc>, k: nat)
    requires i < |threads| && k < |threads| && k != i && threads[k].CountOne?
    ensures HasCountOne(Replace(threads, i, next))
  {
    ReplacedAt(threads, i, next);
    assert Replace(threads, i, next)[if k < i then k else k - 1 + |next|].CountOne?;
  }

  lemma {:induction false} ZerosOriginate(threads: seq<Pc>, i: nat, next: seq<Pc>)
    requires i < |threads| && |next| <= 1
    ensures HasCountZero(Replace(threads, i, next)) ==>
              HasCountZero(threads) || (|next| == 1 && next[0].CountZero?)
  {
    var all := Replace(threads, i, next);
    if p :| 0 <= p < |all| && all[p].CountZero? {
      if |next| == 1 && p == i {
        assert next[0].CountZero?;
      } else {
        assert threads[if p < i then p else p + 1 - |next|].CountZero?;
      }
    }
  }

  lemma {:induction false} ZeroStays(threads: seq<Pc>, i: nat, next: seq<Pc>)
    requires i < |threads| && |next| <= 1
    ensures HasCountZero(threads) && !threads[i].CountZero? ==> HasCountZero(Replace(threads, i, next))
    ensures |next| == 1 && next[0].CountZero? ==> HasCountZero(Replace(threads, i, next))
  {
    ReplacedAt(threads, i, next);
    var all := Replace(threads, i, next);
    if |next| == 1 && next[0].CountZero? {
      assert all[i + 0].CountZero?;
    }
    if k :| 0 <= k < |threads| && threads[k].CountZero? && k != i {
      assert all[if k < i then k else k - 1 + |next|].CountZero?;
    }
  }

  lemma {:induction false} CrossingOriginates(threads: seq<Pc>, i: nat, next: seq<Pc>, t: Transition, w: Window)
    requires i < |threads| && |next| <= 1
    requires |next| == 1 ==> !next[0].CountOne? && (MayClear(next[0], t, w) ==> MayClear(threads[i], t, w))
    ensures Crossing(Replace(threads, i, next), t, w) ==> Crossing(threads, t, w)
  {
    hide MayClear;
    var all := Replace(threads, i, next);
    if Crossing(all, t, w) {
      var p, q :| 0 <= p < |all| && 0 <= q < |all| && p != q && all[p].CountOne? && MayClear(all[q], t, w);
      var p' := if p < i then p else p + 1 - |next|;
      var q' := if q < i then q else q + 1 - |next|;
      assert threads[p'].CountOne? && MayClear(threads[q'], t, w);
    }
  }

  lemma {:induction false} CrossingArises(threads: seq<Pc>, i: nat, next: seq<Pc>, k: nat, t: Transition, w: Window)
    requires i < |threads| && k < |threads| && k != i && threads[k].CountOne?
    requires |next| == 1 && MayClear(next[0], t, w)
    ensures Crossing(Replace(threads, i, next), t, w)
  {
    hide MayClear;
    ReplacedAt(threads, i, next);
    var all := Replace(threads, i, next);
    assert all[if k < i then k else k - 1 + |next|].CountOne? && MayClear(all[i + 0], t, w);
  }

  /** The replaced thread and its successor do not rule out that the transition stays. */
  lemma {:induction false} StayReplaced(threads: seq<Pc>, i: nat, next: seq<Pc>, t: Transition, w: Window)
    requires i < |threads| && |next| <= 1
    ensures var all := Replace(threads, i, next);
            && (CanStay(threads, t, w) && (|next| == 1 ==> CanStay(next, t, w)) ==> CanStay(all, t, w))
            && (CanStay(all, t, w) && CanStay([threads[i]], t, w) ==> CanStay(threads, t, w))
            && (CanStay(all, t, w) && |next| == 1 ==> CanStay(next, t, w))
  {
    hide CanRun;
    ReplacedAt(threads, i, next);
    var all := Replace(threads, i, next);
    if CanStay(threads, t, w) && (|next| == 1 ==> CanStay(next, t, w)) {
      forall p | 0 <= p < |all|
        ensures !all[p].Disabling? && (WillTick(all[p]) ==> CanRun(t, w))
      {
        assert |next| == 1 && p == i ==> all[p] == next[0];
      }
    }
    if CanStay(all, t, w) && CanStay([threads[i]], t, w) {
      forall k | 0 <= k < |threads|
        ensures !threads[k].Disabling? && (WillTick(threads[k]) ==> CanRun(t, w))
      {
        if k == i {
          assert [threads[i]][0] == threads[k];
        } else {
          assert all[if k < i then k else k - 1 + |next|] == threads[k];
        }
      }
    }
    if CanStay(all, t, w) && |next| == 1 {
      assert all[i + 0] == next[0];
    }
  }

  // ---- Safe counts come out right ----

  /** The active transition after a section, and that a section is brief. */
  lemma {:induction false} SectionShape(s: State, pc: Pc, now: int, b: int)
    ensures var (s', next) := Section(s, pc, now, b);
            && |next| <= 1 && (|next| == 1 ==> !next[0].CountOne?)
            && s'.active == (if pc.Disabling? then None else s.active)
            && s'.count == (if pc.CountOne? then 1 else if pc.CountZero? then 0 else s.count)
            && (|next| == 1 && next[0].CountZero? ==> pc.Disabling? && s.active.Some?)
  {
    hide Running;
  }

  /** With an active transition a thread that goes on to clear it could have done so
      before, and one that may let it stay could do so before. */
  lemma {:induction false} SectionActive(s: State, w: Window, pc: Pc, now: int, b: int)
    requires s.active.Some? && !pc.Disabling? && Within(w, now)
    ensures var next := Section(s, pc, now, b).1;
            var t := s.active.value;
            |next| == 1 ==>
              && (MayClear(next[0], t, w) ==> MayClear(pc, t, w))
              && (CanStay(next, t, w) ==> CanStay([pc], t, w))
  {
  }

  lemma {:induction false} InactiveStep(s: State, w: Window, i: nat, now: int, b: int)
    requires i < |s.threads| && s.active.None? && CountSafe(s, w)
    ensures CountSafe(Apply(s, Run(i, now, b)), w)
  {
    hide Section, Replace, HasCountZero;
    var pc := s.threads[i];
    var (s', next) := Section(s, pc, now, b);
    SectionShape(s, pc, now, b);
    OnesOriginate(s.threads, i, next);
    ZeroStays(s.threads, i, next);
  }

  lemma {:induction false} ClearingStep(s: State, w: Window, i: nat, now: int, b: int)
    requires i < |s.threads| && s.active.Some? && s.threads[i].Disabling? && CountSafe(s, w)
    ensures CountSafe(Apply(s, Run(i, now, b)), w)
  {
    hide Section, Replace;
    var pc := s.threads[i];
    var (s', next) := Section(s, pc, now, b);
    SectionShape(s, pc, now, b);
    assert next == [CountZero(pc.answers)] by { DisablingSection(s, pc, now, b); }
    OnesOriginate(s.threads, i, next);
    ZeroStays(s.threads, i, next);
    CrossesWith(s.threads, i, s.active.value, w);
  }

  lemma {:induction false} CrossesWith(threads: seq<Pc>, i: nat, t: Transition, w: Window)
    requires i < |threads| && MayClear(threads[i], t, w) && !threads[i].CountOne?
    ensures HasCountOne(threads) ==> Crossing(threads, t, w)
  {
    if k :| 0 <= k < |threads| && threads[k].CountOne? {
      assert k != i;
    }
  }

  lemma {:induction false} DisablingSection(s: State, pc: Pc, now: int, b: int)
    requires pc.Disabling? && s.active.Some?
    ensures Section(s, pc, now, b).1 == [CountZero(pc.answers)]
  {
  }

  lemma {:induction false} ActiveStep(s: State, w: Window, i: nat, now: int, b: int)
    requires i < |s.threads| && s.active.Some? && !s.threads[i].Disabling? && CountSafe(s, w)
    requires Within(w, now)
    ensures CountSafe(Apply(s, Run(i, now, b)), w)
  {
    hide Section, Replace, HasCountZero, Crossing, CanStay, MayClear;
    var pc, t := s.threads[i], s.active.value;
    var (s', next) := Section(s, pc, now, b);
    var all := Replace(s.threads, i, next);
    SectionShape(s, pc, now, b);
    SectionActive(s, w, pc, now, b);
    CrossingOriginates(s.threads, i, next, t, w);
    ZerosOriginate(s.threads, i, next);
    StayReplaced(s.threads, i, next, t, w);
    if CanStay(all, t, w) {
      QuietStays(s, w, pc, now, b);
      assert CanStay(s.threads, t, w);
      if pc.CountZero? {
        HasThisZero(s.threads, i);
      }
      if !pc.CountOne? && HasCountOne(s.threads) {
        var k :| 0 <= k < |s.threads| && s.threads[k].CountOne?;
        OneStays(s.threads, i, next, k);
      }
    }
  }

  lemma {:induction false} HasThisZero(threads: seq<Pc>, i: nat)
    requires i < |threads| && threads[i].CountZero?
    ensures HasCountZero(threads)
  {
  }

  /** A thread that ends, or goes on towards the answer, does not tick any more. */
  lemma {:induction false} QuietStays(s: State, w: Window, pc: Pc, now: int, b: int)
    requires s.active.Some? && !pc.Disabling?
    ensures Section(s, pc, now, b).1 == [] ==> CanStay([pc], s.active.value, w)
  {
  }

  lemma {:induction false} SafeStep(s: State, w: Window, i: nat, now: int, b: int)
    requires i < |s.threads| && CountSafe(s, w) && Within(w, now)
    ensures CountSafe(Apply(s, Run(i, now, b)), w)
  {
    if s.active.None? {
      InactiveStep(s, w, i, now, b);
    } else if s.threads[i].Disabling? {
      ClearingStep(s, w, i, now, b);
    } else {
      ActiveStep(s, w, i, now, b);
    }
  }

  lemma {:induction false} SafeLater(s: State, w: Window, now: int)
    requires CountSafe(s, w) && Within(w, now)
    ensures CountSafe(s, Later(w, now))
  {
    if s.active.Some? {
      LessLater(s.active.value, w, now);
    }
  }

  predicate CountRight(s: State) {
    s.count == 1 <==> s.active.Some?
  }

  lemma {:induction false} SafeAtEnd(s: State, w: Window)
    requires s.threads == []
    ensures CountSafe(s, w) <==> CountRight(s)
  {
  }

  lemma {:induction false} SafeCompletes(s: State, w: Window, events: seq<Event>)
    requires CountSafe(s, w) && Completes(s, w, events)
    ensures CountRight(After(s, events))
    decreases |events|
  {
    hide CountSafe, Apply;
    if events == [] {
      SafeAtEnd(s, w);
    } else {
      var e := events[0];
      SafeStep(s, w, e.thread, e.now, e.brightness);
      SafeLater(Apply(s, e), w, e.now);
      SafeCompletes(Apply(s, e), Later(w, e.now), events[1..]);
    }
  }

  // ---- Unsafe counts can come out wrong ----

  /** Inactive, and a count of one is pending: it can be the last write. */
  lemma {:induction false} LateOne(s: State, w: Window, k: nat) returns (i: nat)
    requires s.active.None? && k < |s.threads| && s.threads[k].CountOne?
    ensures i < |s.threads| && !CountSafe(Apply(s, Run(i, w.from, 0)), w)
  {
    hide Section, Replace;
    if |s.threads| > 1 {
      i := if k == 0 then 1 else 0;
      var (s', next) := Section(s, s.threads[i], w.from, 0);
      SectionShape(s, s.threads[i], w.from, 0);
      OneStays(s.threads, i, next, k);
    } else {
      i := 0;
      OneAlone(s, w, s.threads[0]);
    }
  }

  lemma {:induction false} OneAlone(s: State, w: Window, pc: Pc)
    requires s.active.None? && s.threads == [pc] && pc.CountOne?
    ensures !CountSafe(Apply(s, Run(0, w.from, 0)), w)
  {
    assert Replace(s.threads, 0, [Ticking(pc.answers)]) == [Ticking(pc.answers)];
  }

  /** Inactive, the count is one and nothing will clear it. */
  lemma {:induction false} StaleOne(s: State, w: Window)
    requires s.active.None? && s.threads != [] && !HasCountOne(s.threads) && s.count == 1 && !HasCountZero(s.threads)
    ensures !CountSafe(Apply(s, Run(0, w.from, 0)), w)
  {
    hide Section, Replace;
    var (s', next) := Section(s, s.threads[0], w.from, 0);
    SectionShape(s, s.threads[0], w.from, 0);
    ZerosOriginate(s.threads, 0, next);
  }

  /** When a thread that may clear the transition takes its next step for that: a tick
      when the schedule is over, any other at once. */
  lemma {:induction false} TimeToClear(pc: Pc, t: Transition, w: Window) returns (now: int, b: int)
    requires w.from <= w.until && MayClear(pc, t, w)
    ensures Within(w, now) && (if pc.Ticking? then !Running(t, now, b) else now == w.from)
  {
    now, b := w.from, 0;
    if pc.Ticking? {
      now, b :| Within(w, now) && !Running(t, now, b);
    }
  }

  /** A pending count of one and a thread that may clear: the clear can come first. */
  lemma {:induction false} ClearFirst(s: State, w: Window, k: nat, j: nat) returns (now: int, b: int)
    requires w.from <= w.until
    requires s.active.Some? && k < |s.threads| && j < |s.threads| && k != j
    requires s.threads[k].CountOne? && MayClear(s.threads[j], s.active.value, w)
    ensures Within(w, now) && !CountSafe(Apply(s, Run(j, now, b)), Later(w, now))
  {
    var t, pc := s.active.value, s.threads[j];
    now, b := TimeToClear(pc, t, w);
    hide Section, Replace, MayClear;
    var (s', next) := Section(s, pc, now, b);
    SectionShape(s, pc, now, b);
    OneStays(s.threads, j, next, k);
    if !pc.Disabling? {
      CrossingArises(s.threads, j, next, k, t, Later(w, now));
    }
  }

  /** When a thread that may let the transition stay takes its next step for that. */
  lemma {:induction false} TimeToStay(threads: seq<Pc>, i: nat, t: Transition, w: Window) returns (now: int, b: int)
    requires w.from <= w.until && i < |threads| && CanStay(threads, t, w)
    ensures Within(w, now) && (if threads[i].Ticking? then Running(t, now, b) else now == w.from)
    ensures CanStay(threads, t, Later(w, now))
  {
    now, b := w.from, 0;
    if threads[i].Ticking? {
      now, b :| Within(w, now) && Running(t, now, b);
      assert Within(Later(w, now), now);
    }
  }

  /** The transition may stay, but a count of zero is pending or nothing will set the
      count: a step that leaves it so. */
  lemma {:induction false} WrongWhileActive(s: State, w: Window) returns (i: nat, now: int, b: int)
    requires w.from <= w.until
    requires s.active.Some? && s.threads != [] && CanStay(s.threads, s.active.value, w)
    requires HasCountZero(s.threads) || (s.count != 1 && !HasCountOne(s.threads))
    ensures i < |s.threads| && Within(w, now) && !CountSafe(Apply(s, Run(i, now, b)), Later(w, now))
  {
    var t := s.active.value;
    i := 0;
    if k :| 0 <= k < |s.threads| && !s.threads[k].CountZero? {
      i := k;
    }
    var pc := s.threads[i];
    now, b := TimeToStay(s.threads, i, t, w);
    var w' := Later(w, now);
    assert CanStay([pc], t, w');
    StayingGoesOn(s, w', pc, now, b);
    var next := Section(s, pc, now, b).1;
    SectionShape(s, pc, now, b);
    hide Section, Replace, CanStay, CanRun;
    StayReplaced(s.threads, i, next, t, w');
    OnesOriginate(s.threads, i, next);
    ZeroStays(s.threads, i, next);
  }

  lemma {:induction false} StayingGoesOn(s: State, w: Window, pc: Pc, now: int, b: int)
    requires s.active.Some? && CanStay([pc], s.active.value, w)
    requires pc.Ticking? ==> Running(s.active.value, now, b)
    ensures !pc.Disabling? && CanStay(Section(s, pc, now, b).1, s.active.value, w)
  {
    assert !([pc][0]).Disabling?;
    assert WillTick([pc][0]) ==> CanRun(s.active.value, w);
  }

  /** From every unsafe state with threads some step leads to an unsafe state. */
  lemma {:induction false} UnsafeStep(s: State, w: Window) returns (i: nat, now: int, b: int)
    requires !CountSafe(s, w) && s.threads != [] && w.from <= w.until
    ensures i < |s.threads| && Within(w, now) && !CountSafe(Apply(s, Run(i, now, b)), Later(w, now))
  {
    hide Apply, MayClear, CanStay;
    now, b := w.from, 0;
    if s.active.None? {
      if k :| 0 <= k < |s.threads| && s.threads[k].CountOne? {
        i := LateOne(s, w, k);
      } else {
        i := 0;
        StaleOne(s, w);
      }
    } else if k, j :| 0 <= k < |s.threads| && 0 <= j < |s.threads| && k != j
                      && s.threads[k].CountOne? && MayClear(s.threads[j], s.active.value, w) {
      i := j;
      now, b := ClearFirst(s, w, k, j);
    } else {
      i, now, b := WrongWhileActive(s, w);
    }
  }

  lemma {:induction false} UnsafeCompletes(s: State, w: Window) returns (events: seq<Event>)
    requires !CountSafe(s, w) && w.from <= w.until
    ensures Completes(s, w, events) && !CountRight(After(s, events))
    decreases TotalWeight(s.threads)
  {
    hide CountSafe, Apply;
    events := [];
    if s.threads == [] {
      SafeAtEnd(s, w);
    } else {
      var i, now, b := UnsafeStep(s, w);
      SectionShrinks(s, i, now, b);
      var rest := UnsafeCompletes(Apply(s, Run(i, now, b)), Later(w, now));
      events := [Run(i, now, b)] + rest;
    }
  }

  /** For every state and every stretch of time: however the threads in flight end
      within it, on a clock that does not go back, the count is one exactly when the
      controller is active, if and only if the state is `CountSafe`. */
  lemma {:induction false} CountRightIff(s: State, w: Window)
    requires w.from <= w.until
    ensures (forall events :: Completes(s, w, events) ==> CountRight(After(s, events))) <==> CountSafe(s, w)
  {
    hide CountSafe;
    if CountSafe(s, w) {
      forall events | Completes(s, w, events)
        ensures CountRight(After(s, events))
      {
        SafeCompletes(s, w, events);
      }
    } else {
      var events := UnsafeCompletes(s, w);
    }
  }

  // ---- Answers ----

  /** The thread of a control write that has not answered yet. */
  predicate WillAnswer(pc: Pc) {
    match pc
    case CountOne(a) => a
    case Ticking(a) => a
    case Applied(interval, a) => a
    case Disabling(a) => a
    case CountZero(a) => a
    case Answering => true
    case Checking => false
  }

  predicate HasAnswer(threads: seq<Pc>) {
    exists i :: 0 <= i < |threads| && WillAnswer(threads[i])
  }

  /** No answer has failed; and if one is pending, the transition is there and no
      thread may clear it. */
  ghost predicate AnswerSafe(s: State, w: Window) {
    !s.failed && (HasAnswer(s.threads) ==> s.active.Some? && !SomeClears(s.threads, s.active.value, w))
  }

  lemma {:induction false} AnswersOriginate(threads: seq<Pc>, i: nat, next: seq<Pc>)
    requires i < |threads| && |next| <= 1 && (|next| == 1 && WillAnswer(next[0]) ==> WillAnswer(threads[i]))
    ensures HasAnswer(Replace(threads, i, next)) ==> HasAnswer(threads)
  {
    var all := Replace(threads, i, next);
    if p :| 0 <= p < |all| && WillAnswer(all[p]) {
      assert WillAnswer(threads[if p < i then p else p + 1 - |next|]);
    }
  }

  lemma {:induction false} AnswerStays(threads: seq<Pc>, i: nat, next: seq<Pc>)
    requires i < |threads| && |next| <= 1
    requires WillAnswer(threads[i]) ==> |next| == 1 && WillAnswer(next[0])
    ensures HasAnswer(threads) ==> HasAnswer(Replace(threads, i, next))
  {
    ReplacedAt(threads, i, next);
    var all := Replace(threads, i, next);
    if k :| 0 <= k < |threads| && WillAnswer(threads[k]) {
      if k == i {
        assert WillAnswer(all[i + 0]);
      } else {
        assert WillAnswer(all[if k < i then k else k - 1 + |next|]);
      }
    }
  }

  lemma {:induction false} ClearsOriginate(threads: seq<Pc>, i: nat, next: seq<Pc>, t: Transition, w: Window)
    requires i < |threads| && |next| <= 1 && (|next| == 1 && MayClear(next[0], t, w) ==> MayClear(threads[i], t, w))
    ensures SomeClears(Replace(threads, i, next), t, w) ==> SomeClears(threads, t, w)
  {
    hide MayClear;
    var all := Replace(threads, i, next);
    if p :| 0 <= p < |all| && MayClear(all[p], t, w) {
      assert MayClear(threads[if p < i then p else p + 1 - |next|], t, w);
    }
  }

  lemma {:induction false} ClearsArise(threads: seq<Pc>, i: nat, next: seq<Pc>, t: Transition, w: Window)
    requires i < |threads| && |next| == 1 && MayClear(next[0], t, w)
    ensures SomeClears(Replace(threads, i, next), t, w)
  {
    hide MayClear;
    ReplacedAt(threads, i, next);
    assert MayClear(Replace(threads, i, next)[i + 0], t, w);
  }

  lemma {:induction false} SectionAnswers(s: State, pc: Pc, now: int, b: int)
    ensures var (s', next) := Section(s, pc, now, b);
            && |next| <= 1
            && (|next| == 1 && WillAnswer(next[0]) ==> WillAnswer(pc))
            && (WillAnswer(pc) && !pc.Answering? ==> |next| == 1 && WillAnswer(next[0]))
            && s'.failed == (s.failed || (pc.Answering? && s.active.None?))
            && s'.active == (if pc.Disabling? then None else s.active)
  {
    hide Running;
  }

  lemma {:induction false} AnswerSafeStep(s: State, w: Window, i: nat, now: int, b: int)
    requires i < |s.threads| && AnswerSafe(s, w) && Within(w, now)
    ensures AnswerSafe(Apply(s, Run(i, now, b)), w)
  {
    hide Section, Replace, MayClear;
    var pc := s.threads[i];
    var (s', next) := Section(s, pc, now, b);
    SectionAnswers(s, pc, now, b);
    AnswersOriginate(s.threads, i, next);
    if HasAnswer(s.threads) {
      assert !MayClear(pc, s.active.value, w);
      DisablingClears(pc, s.active.value, w);
      SectionActive(s, w, pc, now, b);
      ClearsOriginate(s.threads, i, next, s.active.value, w);
    } else {
      assert !WillAnswer(pc);
    }
  }

  lemma {:induction false} AnswerSafeLater(s: State, w: Window, now: int)
    requires AnswerSafe(s, w) && Within(w, now)
    ensures AnswerSafe(s, Later(w, now))
  {
    if s.active.Some? {
      LessLater(s.active.value, w, now);
    }
  }

  lemma {:induction false} DisablingClears(pc: Pc, t: Transition, w: Window)
    ensures pc.Disabling? ==> MayClear(pc, t, w)
  {
  }

  lemma {:induction false} AnswersComplete(s: State, w: Window, events: seq<Event>)
    requires AnswerSafe(s, w) && Completes(s, w, events)
    ensures !After(s, events).failed
    decreases |events|
  {
    hide Apply;
    if events != [] {
      var e := events[0];
      AnswerSafeStep(s, w, e.thread, e.now, e.brightness);
      AnswerSafeLater(Apply(s, e), w, e.now);
      AnswersComplete(Apply(s, e), Later(w, e.now), events[1..]);
    }
  }

  /** Inactive with an answer pending: its thread gets nearer to failing. */
  lemma {:induction false} NearerToFailing(s: State, w: Window, i: nat)
    requires i < |s.threads| && WillAnswer(s.threads[i]) && s.active.None?
    ensures !AnswerSafe(Apply(s, Run(i, w.from, 0)), w)
  {
    hide Section, Replace;
    var pc := s.threads[i];
    var (s', next) := Section(s, pc, w.from, 0);
    SectionAnswers(s, pc, w.from, 0);
    if !pc.Answering? {
      AnswerStays(s.threads, i, next);
      assert HasAnswer(s.threads);
    }
  }

  /** Active with an answer pending: a thread that may clear does so, or gets nearer. */
  lemma {:induction false} NearerToClearing(s: State, w: Window, j: nat) returns (now: int, b: int)
    requires w.from <= w.until
    requires s.active.Some? && HasAnswer(s.threads) && j < |s.threads| && MayClear(s.threads[j], s.active.value, w)
    ensures Within(w, now) && !AnswerSafe(Apply(s, Run(j, now, b)), Later(w, now))
  {
    var t, pc := s.active.value, s.threads[j];
    now, b := TimeToClear(pc, t, w);
    hide Section, Replace, MayClear;
    var (s', next) := Section(s, pc, now, b);
    SectionAnswers(s, pc, now, b);
    assert !pc.Answering? by { NotAnswering(pc, t, w); }
    AnswerStays(s.threads, j, next);
    if !pc.Disabling? {
      ClearsArise(s.threads, j, next, t, Later(w, now));
    }
  }

  lemma {:induction false} NotAnswering(pc: Pc, t: Transition, w: Window)
    requires MayClear(pc, t, w)
    ensures !pc.Answering?
  {
  }

  lemma {:induction false} FailedStays(s: State, i: nat, now: int, b: int)
    requires i < |s.threads| && s.failed
    ensures Apply(s, Run(i, now, b)).failed
  {
    SectionAnswers(s, s.threads[i], now, b);
  }

  lemma {:induction false} AnswersFail(s: State, w: Window) returns (events: seq<Event>)
    requires !AnswerSafe(s, w) && w.from <= w.until
    ensures Completes(s, w, events) && After(s, events).failed
    decreases TotalWeight(s.threads)
  {
    hide Apply, MayClear;
    events := [];
    if s.threads != [] {
      var i, now, b := 0, w.from, 0;
      if s.failed {
        FailedStays(s, i, now, b);
      } else if s.active.None? {
        i :| 0 <= i < |s.threads| && WillAnswer(s.threads[i]);
        NearerToFailing(s, w, i);
      } else {
        i :| 0 <= i < |s.threads| && MayClear(s.threads[i], s.active.value, w);
        now, b := NearerToClearing(s, w, i);
      }
      SectionShrinks(s, i, now, b);
      var rest := AnswersFail(Apply(s, Run(i, now, b)), Later(w, now));
      events := [Run(i, now, b)] + rest;
    }
  }

  /** For every state and every stretch of time: however the threads in flight end
      within it, on a clock that does not go back, no answer to a control write
      dereferences a missing transition, if and only if the state is `AnswerSafe`. */
  lemma {:induction false} AnswersFindIff(s: State, w: Window)
    requires w.from <= w.until
    ensures (forall events :: Completes(s, w, events) ==> !After(s, events).failed) <==> AnswerSafe(s, w)
  {
    hide AnswerSafe;
    if AnswerSafe(s, w) {
      forall events | Completes(s, w, events)
        ensures !After(s, events).failed
      {
        AnswersComplete(s, w, events);
      }
    } else {
      var events := AnswersFail(s, w);
    }
  }

  // ---- What this means for a call ----

  /** After a transition was set up, and for the next 2^63 milliseconds: it can be over
      within a stretch of time exactly when it has fewer than two entries or the
      stretch begins before its first point or ends after its last; and it can have a
      value exactly when it has two entries and the stretch meets the time between
      these points. */
  lemma {:induction false} WrittenTransition(c: TransitionConfig, toReal: float32 -> real, setAt: int, w: Window)
    requires setAt <= w.from <= w.until < setAt + TWO_63
    ensures var t := Setup(c, toReal, setAt);
            var n := |c.curve.entries|;
            && (CanExhaust(t, w) <==>
                n < 2 || w.from < setAt + t.curve[0].ramp || w.until > setAt + Start(t.curve, n - 1))
            && (CanRun(t, w) <==>
                n >= 2 && w.from <= setAt + Start(t.curve, n - 1) && w.until >= setAt + t.curve[0].ramp)
  {
    var t := Setup(c, toReal, setAt);
    var n := |c.curve.entries|;
    assert NonNegative(t.curve) && |t.curve| == n;
    hide Running, Setup, Wrap, NonNegative, Start;
    forall now, b | Within(w, now)
      ensures Running(t, now, b) <==>
                n >= 2 && setAt + t.curve[0].ramp <= now <= setAt + Start(t.curve, n - 1)
    {
      RunningIff(c, toReal, setAt, now, b);
      WrapUnique(now - setAt, now - setAt, 0);
    }
    assert Within(w, w.from) && Within(w, w.until);
    assert Running(t, w.from, 0) || !Running(t, w.from, 0);
    assert Running(t, w.until, 0) || !Running(t, w.until, 0);
    if n >= 2 {
      FirstBeforeLast(t.curve);
      var first := setAt + t.curve[0].ramp;
      if w.from <= first <= w.until {
        assert Within(w, first) && Running(t, first, 0);
      }
    }
  }

  lemma {:induction false} FirstBeforeLast(ps: seq<Point>)
    requires |ps| > 0 && NonNegative(ps)
    ensures ps[0].ramp <= Start(ps, |ps| - 1)
  {
    StartMonotone(ps, 0, |ps| - 1);
  }

  /** Between calls everything is safe. */
  lemma {:induction false} SettledIsSafe(s: State, w: Window)
    requires Settled(s) && !s.failed
    ensures CountSafe(s, w) && AnswerSafe(s, w)
  {
  }

  /** A disable that arrives while the count of an enable is still pending spoils both:
      the count can end as one without a transition, and the answer can fail. */
  lemma {:induction false} DisableOverEnable(s: State, t: Transition, w: Window)
    requires Settled(s)
    ensures var s' := Apply(Apply(s, Activate(t, true)), Disable); !CountSafe(s', w) && !AnswerSafe(s', w)
  {
    var s' := Apply(Apply(s, Activate(t, true)), Disable);
    assert s'.threads == [CountOne(true), Disabling(false)];
    assert s'.threads[0].CountOne? && MayClear(s'.threads[1], t, w) && WillAnswer(s'.threads[0]);
  }
}
