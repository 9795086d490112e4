/** What a write stores: entry by entry, over a whole request, and by the application. */
module ServerStores {
  import opened Options
  import opened ServerSteps
  import opened ServerWrites
  import C = Characteristic

  // ---- Local writes ----

  /** The write reaches the failing assertion on a uint64 value. */
  predicate Crash(w: World, vals: map<Id, C.Val>, l: LocalWrite) {
    l.id in w.chars && l.id in vals && w.chars[l.id].format == C.UnsignedLong
  }

  predicate Crashes(w: World, vals: map<Id, C.Val>, ls: seq<LocalWrite>) {
    exists k :: 0 <= k < |ls| && Crash(w, vals, ls[k])
  }

  /** The writes before the first that crashes. */
  function Until(w: World, vals: map<Id, C.Val>, ls: seq<LocalWrite>): seq<LocalWrite>
    decreases |ls|
  {
    if ls == [] || Crash(w, vals, ls[0]) then [] else [ls[0]] + Until(w, vals, ls[1..])
  }

  /** What a characteristic holds after a successful write of a value. */
  function Stored(c: C.Config, v: C.Val): C.Val {
    C.Limited(c, C.Convert(c, v))
  }

  /** A write of the application stores the limited value if it is valid, and nothing
      otherwise. */
  lemma {:induction false} LocalStores(w: World, s: State, l: LocalWrite)
    ensures Apply(w, s, Local(l)) ==
            if && l.id in w.chars && l.id in s.vals && w.chars[l.id].format != C.UnsignedLong
               && C.ValidVal(w.chars[l.id], Stored(w.chars[l.id], l.value))
            then s.(vals := s.vals[l.id := Stored(w.chars[l.id], l.value)])
            else s
  {
    hide LocalAll, C.ValidVal;
    OneLocal(w, s.vals, l);
    assert s.(vals := s.vals) == s;
  }

  lemma {:induction false} OneLocal(w: World, vals: map<Id, C.Val>, l: LocalWrite)
    ensures LocalAll(w, vals, [l]) ==
            if l.id !in w.chars || l.id !in vals then PutResult(vals, false)
            else if w.chars[l.id].format == C.UnsignedLong then PutResult(vals, true)
            else if C.ValidVal(w.chars[l.id], Stored(w.chars[l.id], l.value)) then
              PutResult(vals[l.id := Stored(w.chars[l.id], l.value)], false)
            else PutResult(vals, false)
  {
    hide C.ValidVal, C.Requested, Stored;
    assert [l][1..] == [];
    assert LocalAll(w, vals, []) == PutResult(vals, false);
    if l.id in w.chars && l.id in vals {
      var c := w.chars[l.id];
      LocalOutcome(c, vals[l.id], l.value);
      var o := C.Requested(c, vals[l.id], l.value, C.Local);
      assert vals[l.id := vals[l.id]] == vals;
      if o.Replied? {
        assert LocalAll(w, vals[l.id := o.value], []) == PutResult(vals[l.id := o.value], false);
      }
    }
  }

  lemma {:induction false} LocalOutcome(c: C.Config, before: C.Val, v: C.Val)
    ensures var o := C.Requested(c, before, v, C.Local);
            && (o.Panic? <==> c.format == C.UnsignedLong)
            && (o.Replied? ==> o.value == if C.ValidVal(c, Stored(c, v)) then Stored(c, v) else before)
  {
    hide C.Limited, C.Convert, C.ValidVal;
  }

  function Locals(ls: seq<LocalWrite>): (es: seq<Event>)
    ensures |es| == |ls|
  {
    seq(|ls|, k requires 0 <= k < |ls| => Local(ls[k]))
  }

  lemma {:induction false} LocalsLast(w: World, s: State, ls: seq<LocalWrite>, l: LocalWrite)
    ensures After(w, s, Locals(ls + [l])) == Apply(w, After(w, s, Locals(ls)), Local(l))
  {
    hide Apply;
    assert Locals(ls + [l])[..|ls|] == Locals(ls);
  }

  lemma {:induction false} LocalsFirst(w: World, s: State, l: LocalWrite, ls: seq<LocalWrite>)
    ensures After(w, s, Locals([l] + ls)) == After(w, Apply(w, s, Local(l)), Locals(ls))
    decreases |ls|
  {
    hide Apply, After;
    NoEvents(w, s, []);
    if ls == [] {
      assert [] + [l] == [l] + ls;
      LocalsLast(w, s, [], l);
      assert Locals([]) == [];
      NoEvents(w, Apply(w, s, Local(l)), []);
    } else {
      var n := |ls| - 1;
      assert [l] + ls == ([l] + ls[..n]) + [ls[n]] && ls == ls[..n] + [ls[n]];
      LocalsLast(w, s, [l] + ls[..n], ls[n]);
      LocalsLast(w, Apply(w, s, Local(l)), ls[..n], ls[n]);
      LocalsFirst(w, s, l, ls[..n]);
    }
  }

  /** The local writes of a handler or a listener are like writes of the application
      one after the other, up to the first that crashes. */
  lemma {:induction false} LocalsInOrder(w: World, s: State, ls: seq<LocalWrite>)
    ensures LocalAll(w, s.vals, ls)
            == PutResult(After(w, s, Locals(Until(w, s.vals, ls))).vals, Crashes(w, s.vals, ls))
    decreases |ls|
  {
    hide C.Requested, After;
    NoEvents(w, s, []);
    if ls == [] {
      assert Locals([]) == [];
    } else {
      var l := ls[0];
      CrashesFirst(w, s.vals, ls);
      if Crash(w, s.vals, l) {
        LocalOutcome(w.chars[l.id], s.vals[l.id], l.value);
        assert Locals([]) == [];
      } else {
        var s1 := Apply(w, s, Local(l));
        assert s1.vals == LocalAll(w, s.vals, [l]).vals;
        LocalFirst(w, s.vals, l, ls[1..]);
        LocalAllChanges(w, s.vals, [l], l.id);
        SameCrashes(w, s.vals, s1.vals, ls[1..]);
        LocalsInOrder(w, s1, ls[1..]);
        LocalsFirst(w, s, l, Until(w, s.vals, ls[1..]));
      }
    }
  }

  lemma {:induction false} LocalFirst(w: World, vals: map<Id, C.Val>, l: LocalWrite, ls: seq<LocalWrite>)
    requires !Crash(w, vals, l)
    ensures LocalAll(w, vals, [l] + ls) == LocalAll(w, LocalAll(w, vals, [l]).vals, ls)
  {
    hide C.Requested;
    assert ([l] + ls)[1..] == ls && [l][1..] == [];
    if l.id in w.chars && l.id in vals {
      LocalOutcome(w.chars[l.id], vals[l.id], l.value);
    }
    assert forall v :: LocalAll(w, v, []) == PutResult(v, false);
  }

  lemma {:induction false} CrashesFirst(w: World, vals: map<Id, C.Val>, ls: seq<LocalWrite>)
    requires ls != []
    ensures Crashes(w, vals, ls) <==> Crash(w, vals, ls[0]) || Crashes(w, vals, ls[1..])
  {
    if k :| 0 <= k < |ls| && Crash(w, vals, ls[k]) {
      if k > 0 {
        assert ls[1..][k - 1] == ls[k];
      }
    }
    if k :| 0 <= k < |ls[1..]| && Crash(w, vals, ls[1..][k]) {
      assert ls[k + 1] == ls[1..][k];
    }
  }

  lemma {:induction false} SameCrashes(
      w: World, vals: map<Id, C.Val>, vals': map<Id, C.Val>, ls: seq<LocalWrite>)
    requires vals.Keys == vals'.Keys
    ensures Until(w, vals, ls) == Until(w, vals', ls) && (Crashes(w, vals, ls) <==> Crashes(w, vals', ls))
    decreases |ls|
  {
    assert forall l :: Crash(w, vals, l) <==> Crash(w, vals', l);
    if ls != [] {
      SameCrashes(w, vals, vals', ls[1..]);
    }
  }

  // ---- One entry ----

  /** What the handler of an entry writes locally, if it is called. */
  function DuringOf(w: World, s: State, i: Item): seq<LocalWrite>
    requires i.id in w.chars && i.id in s.vals && i.value.Some?
  {
    if C.CallsHandler(w.chars[i.id], s.vals[i.id], i.value.value, C.Remote(i.answer)) then i.during else []
  }

  function OutcomeOf(w: World, s: State, i: Item): C.Outcome
    requires i.id in w.chars && i.id in s.vals && i.value.Some?
  {
    C.Requested(w.chars[i.id], s.vals[i.id], i.value.value, C.Remote(i.answer))
  }

  /** The entry gets past its handler, and its value is stored. */
  predicate Stores(w: World, s: State, i: Item)
    requires i.id in w.chars && i.id in s.vals && i.value.Some?
  {
    var o := OutcomeOf(w, s, i);
    o.Replied? && o.notified && !Crashes(w, s.vals, DuringOf(w, s, i))
  }

  /** The state as the writes of an entry leave it: those of its handler, then its
      own, then those of the listeners. */
  function Performed(w: World, s: State, i: Item): State
    requires i.id in w.chars && i.id in s.vals && i.value.Some?
  {
    var s1 := After(w, s, Locals(Until(w, s.vals, DuringOf(w, s, i))));
    if Stores(w, s, i) then
      After(w, s1.(vals := s1.vals[i.id := OutcomeOf(w, s, i).value]), Locals(Until(w, s.vals, i.after)))
    else s1
  }

  /** The write, its handler or a listener panics. */
  predicate EntryPanics(w: World, s: State, i: Item)
    requires i.id in w.chars && i.id in s.vals && i.value.Some?
  {
    || OutcomeOf(w, s, i).Panic?
    || Crashes(w, s.vals, DuringOf(w, s, i))
    || (Stores(w, s, i) && Crashes(w, s.vals, i.after))
  }

  lemma {:induction false} LocalsKeep(w: World, s: State, ls: seq<LocalWrite>)
    ensures var s' := After(w, s, Locals(ls)); s' == s.(vals := s'.vals) && s'.vals.Keys == s.vals.Keys
    decreases |ls|
  {
    hide Locals, LocalAll;
    if ls == [] {
      assert Locals([]) == [];
      NoEvents(w, s, []);
    } else {
      var n := |ls| - 1;
      assert ls == ls[..n] + [ls[n]];
      LocalsKeep(w, s, ls[..n]);
      LocalsLast(w, s, ls[..n], ls[n]);
      LocalAllChanges(w, After(w, s, Locals(ls[..n])).vals, [ls[n]], ls[n].id);
      hide After;
    }
  }

  lemma {:induction false} ItemPerformed(w: World, s: State, i: Item)
    requires i.id in w.chars && i.id in s.vals && i.value.Some?
    ensures WriteItem(w, s.vals, i) == PutResult(Performed(w, s, i).vals, EntryPanics(w, s, i))
  {
    hide C.Requested, C.CallsHandler, LocalAll, After, Locals, Until, Crashes;
    var during := DuringOf(w, s, i);
    LocalsInOrder(w, s, during);
    LocalsKeep(w, s, Until(w, s.vals, during));
    NoLocals(w, s);
    C.PanicIff(w.chars[i.id], s.vals[i.id], i.value.value, C.Remote(i.answer));
    var s1 := After(w, s, Locals(Until(w, s.vals, during)));
    if Stores(w, s, i) {
      var s2 := s1.(vals := s1.vals[i.id := OutcomeOf(w, s, i).value]);
      LocalsInOrder(w, s2, i.after);
      SameCrashes(w, s.vals, s2.vals, i.after);
    }
  }

  lemma {:induction false} NoLocals(w: World, s: State)
    ensures !Crashes(w, s.vals, []) && Until(w, s.vals, []) == [] && After(w, s, Locals([])) == s
    ensures LocalAll(w, s.vals, []) == PutResult(s.vals, false)
  {
    assert Locals([]) == [];
    NoEvents(w, s, []);
  }

  /** A permitted entry leaves behind what the same writes of the application would,
      with its own value between those of its handler and those of its listeners. If
      something panics, the connection is lost, and else the prepare is spent. */
  lemma {:induction false} EntryPerformed(w: World, s: State, a: Addr, pid: nat, i: Item)
    requires IsLive(s, a) && IsOpen(s, a)
    requires i.id in w.chars && i.id in s.vals && i.value.Some?
    requires var timed := s.sess[a].timed;
             C.TimedWrite in w.chars[i.id].permissions ==>
               timed.Some? && i.now <= timed.value.deadline && timed.value.pid == pid
    ensures var s' := Performed(w, s, i);
            Apply(w, s, Put(a, pid, [i]))
            == if EntryPanics(w, s, i) then s.(vals := s'.vals, conns := s.conns[a := Closing])
               else s.(vals := s'.vals, sess := s.sess[a := s.sess[a].(timed := None)])
  {
    ItemPerformed(w, s, i);
    OneEntry(w, s.vals, s.sess[a].timed, pid, i);
    hide WriteItem, Performed, EntryPanics, PutAll;
  }

  lemma {:induction false} OneEntry(w: World, vals: map<Id, C.Val>, timed: Option<TimedWrite>, pid: nat, i: Item)
    ensures PutAll(w, vals, timed, pid, [i]) == PutItem(w, vals, timed, pid, i)
  {
    hide PutItem;
    assert [i][1..] == [];
    var r := PutItem(w, vals, timed, pid, i);
    assert PutAll(w, r.vals, timed, pid, []) == PutResult(r.vals, false);
  }

  predicate ListensTo(ls: seq<LocalWrite>, id: Id) {
    exists k :: 0 <= k < |ls| && ls[k].id == id
  }

  lemma {:induction false} UntilListens(w: World, vals: map<Id, C.Val>, ls: seq<LocalWrite>, id: Id)
    requires !ListensTo(ls, id)
    ensures !ListensTo(Until(w, vals, ls), id)
    decreases |ls|
  {
    if ls != [] && !Crash(w, vals, ls[0]) {
      assert ls[0].id != id;
      assert forall k :: 0 <= k < |ls[1..]| ==> ls[1..][k] == ls[k + 1];
      UntilListens(w, vals, ls[1..], id);
    }
  }

  lemma {:induction false} LocalsLeave(w: World, s: State, ls: seq<LocalWrite>, id: Id)
    requires !ListensTo(ls, id) && id in s.vals
    ensures var s' := After(w, s, Locals(ls)); id in s'.vals && s'.vals[id] == s.vals[id]
    decreases |ls|
  {
    hide Locals, LocalAll;
    if ls == [] {
      assert Locals([]) == [];
      NoEvents(w, s, []);
    } else {
      var n := |ls| - 1;
      assert ls == ls[..n] + [ls[n]];
      assert forall k :: 0 <= k < n ==> ls[..n][k] == ls[k];
      assert ls[n].id != id;
      LocalsLeave(w, s, ls[..n], id);
      LocalsLast(w, s, ls[..n], ls[n]);
      LocalAllChanges(w, After(w, s, Locals(ls[..n])).vals, [ls[n]], id);
      hide After;
    }
  }

  /** An entry that gets past its handler and is notified leaves its value in the
      state, unless a listener writes there; an entry that does not leaves the old
      one, unless the handler writes there. */
  lemma {:induction false} EntryStores(w: World, s: State, a: Addr, pid: nat, i: Item)
    requires IsLive(s, a) && IsOpen(s, a)
    requires i.id in w.chars && i.id in s.vals && i.value.Some?
    requires var timed := s.sess[a].timed;
             C.TimedWrite in w.chars[i.id].permissions ==>
               timed.Some? && i.now <= timed.value.deadline && timed.value.pid == pid
    ensures var s' := Apply(w, s, Put(a, pid, [i]));
            var o := C.Requested(w.chars[i.id], s.vals[i.id], i.value.value, C.Remote(i.answer));
            && i.id in s'.vals
            && (IsLive(s', a) && o.Replied? && o.notified && !ListensTo(i.after, i.id) ==> s'.vals[i.id] == o.value)
            && ((o.Panic? || !o.notified) && !ListensTo(i.during, i.id) ==> s'.vals[i.id] == s.vals[i.id])
  {
    EntryPerformed(w, s, a, pid, i);
    PerformedStores(w, s, i);
    hide Apply, Performed, C.Requested;
  }

  lemma {:induction false} PerformedStores(w: World, s: State, i: Item)
    requires i.id in w.chars && i.id in s.vals && i.value.Some?
    ensures var s', o := Performed(w, s, i), OutcomeOf(w, s, i);
            && i.id in s'.vals
            && (Stores(w, s, i) && !ListensTo(i.after, i.id) ==> s'.vals[i.id] == o.value)
            && ((o.Panic? || !o.notified) && !ListensTo(i.during, i.id) ==> s'.vals[i.id] == s.vals[i.id])
  {
    hide C.Requested, C.CallsHandler, After, Locals, Until, Crashes, ListensTo, OutcomeOf;
    var during := Until(w, s.vals, DuringOf(w, s, i));
    LocalsKeep(w, s, during);
    var s1 := After(w, s, Locals(during));
    if Stores(w, s, i) {
      var s2 := s1.(vals := s1.vals[i.id := OutcomeOf(w, s, i).value]);
      var after := Until(w, s.vals, i.after);
      LocalsKeep(w, s2, after);
      if !ListensTo(i.after, i.id) {
        UntilListens(w, s.vals, i.after, i.id);
        LocalsLeave(w, s2, after, i.id);
      }
    } else if !ListensTo(i.during, i.id) {
      NobodyListens(i.id);
      UntilListens(w, s.vals, DuringOf(w, s, i), i.id);
      LocalsLeave(w, s, during, i.id);
    }
  }

  lemma {:induction false} NobodyListens(id: Id)
    ensures !ListensTo([], id)
  {
  }

  /** An entry for a characteristic that there is not, without a value, too late or with
      another transaction than the prepared one changes nothing; one that needs a
      prepare and finds none loses the connection. */
  lemma {:induction false} EntrySkipped(w: World, s: State, a: Addr, pid: nat, i: Item)
    requires IsLive(s, a) && IsOpen(s, a)
    requires var known, timed := i.id in w.chars && i.id in s.vals, s.sess[a].timed;
             || !known || i.value.None?
             || (C.TimedWrite in w.chars[i.id].permissions
                 && (timed.None? || timed.value.deadline < i.now || timed.value.pid != pid))
    ensures Apply(w, s, Put(a, pid, [i]))
            == if i.id in w.chars && i.id in s.vals && C.TimedWrite in w.chars[i.id].permissions
                  && s.sess[a].timed.None?
               then s.(conns := s.conns[a := Closing])
               else s.(sess := s.sess[a := s.sess[a].(timed := None)])
  {
    OneEntry(w, s.vals, s.sess[a].timed, pid, i);
    hide WriteItem, PutAll;
    assert s.(vals := s.vals) == s;
  }

  // ---- Whole requests ----

  /** A request without entries only spends the prepare. An entry behind others finds
      the values that they left, and the same prepare; it is not reached if one of them
      loses the connection. */
  lemma {:induction false} RequestInOrder(w: World, s: State, a: Addr, pid: nat, writes: seq<Item>, i: Item)
    requires IsLive(s, a) && IsOpen(s, a)
    ensures Apply(w, s, Put(a, pid, [])) == s.(sess := s.sess[a := s.sess[a].(timed := None)])
    ensures var s1 := Apply(w, s, Put(a, pid, writes));
            Apply(w, s, Put(a, pid, writes + [i]))
            == if IsLive(s1, a) then Apply(w, s.(vals := s1.vals), Put(a, pid, [i])) else s1
  {
    var timed := s.sess[a].timed;
    PutLast(w, s.vals, timed, pid, writes, i);
    var r := PutAll(w, s.vals, timed, pid, writes);
    OneEntry(w, r.vals, timed, pid, i);
    assert PutAll(w, s.vals, timed, pid, []) == PutResult(s.vals, false);
    assert s.(vals := s.vals) == s;
    hide PutAll, PutItem;
  }

  lemma {:induction false} PutLast(
      w: World, vals: map<Id, C.Val>, timed: Option<TimedWrite>, pid: nat, writes: seq<Item>, i: Item)
    ensures var r := PutAll(w, vals, timed, pid, writes);
            PutAll(w, vals, timed, pid, writes + [i]) == if r.aborted then r else PutItem(w, r.vals, timed, pid, i)
    decreases |writes|
  {
    hide PutItem;
    var all := writes + [i];
    if writes == [] {
      assert all == [i];
      OneEntry(w, vals, timed, pid, i);
    } else {
      assert all[0] == writes[0] && all[1..] == writes[1..] + [i];
      PutLast(w, PutItem(w, vals, timed, pid, writes[0]).vals, timed, pid, writes[1..], i);
    }
  }

  /** The entry is permitted to write this characteristic, the limited value is valid,
      and the handler, if there is one, accepts it. */
  predicate Accepted(w: World, timed: Option<TimedWrite>, pid: nat, i: Item, id: Id) {
    i.id == id && Permitted(w, timed, pid, i) &&
    var c := w.chars[id];
    && c.format != C.UnsignedLong && C.ValidVal(c, Stored(c, i.value.value))
    && (c.handles ==> i.answer.Answer? && i.answer.code == 0)
  }

  lemma {:induction false} AcceptedOutcome(c: C.Config, before: C.Val, v: C.Val, answer: C.Answer)
    ensures var o := C.Requested(c, before, v, C.Remote(answer));
            var accepted := && C.Write in c.permissions && c.format != C.UnsignedLong && C.ValidVal(c, Stored(c, v))
                            && (c.handles ==> answer.Answer? && answer.code == 0);
            && (accepted ==> o.Replied? && o.code == 0 && o.value == Stored(c, v))
            && (!accepted && o.Replied? ==> o.value == before)
  {
    hide C.Limited, C.Convert, C.ValidVal;
  }

  /** One entry that writes nothing locally there, in a request that completes. */
  lemma {:induction false} EntryLeaves(w: World, s: State, a: Addr, pid: nat, i: Item, id: Id)
    requires IsLive(s, a) && IsOpen(s, a) && id in s.vals && !WritesLocally(i, id)
    requires IsLive(Apply(w, s, Put(a, pid, [i])), a)
    ensures var s' := Apply(w, s, Put(a, pid, [i]));
            && id in s'.vals
            && s'.vals[id] == if Accepted(w, s.sess[a].timed, pid, i, id) then Stored(w.chars[id], i.value.value)
                              else s.vals[id]
  {
    var timed := s.sess[a].timed;
    hide Apply, Stored, C.ValidVal, C.Requested, IsOpen, IsLive;
    if i.id in w.chars && i.id in s.vals && i.value.Some? && LetThrough(w, timed, pid, i) {
      EntryPerformed(w, s, a, pid, i);
      EntryWrites(w, s, i, id);
      if i.id == id {
        AcceptedOutcome(w.chars[id], s.vals[id], i.value.value, i.answer);
      }
      hide Performed, EntryPanics;
    } else {
      EntrySkipped(w, s, a, pid, i);
    }
  }

  lemma {:induction false} EntryWrites(w: World, s: State, i: Item, id: Id)
    requires i.id in w.chars && i.id in s.vals && i.value.Some? && id in s.vals
    requires !WritesLocally(i, id) && !EntryPanics(w, s, i)
    ensures var s', o := Performed(w, s, i), OutcomeOf(w, s, i);
            && o.Replied? && id in s'.vals
            && s'.vals[id] == if i.id == id then o.value else s.vals[id]
  {
    hide C.Requested, C.CallsHandler, After, Locals, Until, Crashes, ListensTo, OutcomeOf, DuringOf;
    var during, after := DuringOf(w, s, i), Until(w, s.vals, i.after);
    LocalsKeep(w, s, Until(w, s.vals, during));
    var s1 := After(w, s, Locals(Until(w, s.vals, during)));
    DuringLeaves(w, s, i, id);
    UntilListens(w, s.vals, during, id);
    LocalsLeave(w, s, Until(w, s.vals, during), id);
    if Stores(w, s, i) {
      var s2 := s1.(vals := s1.vals[i.id := OutcomeOf(w, s, i).value]);
      UntilListens(w, s.vals, i.after, id);
      LocalsLeave(w, s2, after, id);
    } else {
      Unnotified(w, s, i);
    }
  }

  lemma {:induction false} DuringLeaves(w: World, s: State, i: Item, id: Id)
    requires i.id in w.chars && i.id in s.vals && i.value.Some? && !WritesLocally(i, id)
    ensures !ListensTo(DuringOf(w, s, i), id) && !ListensTo(i.after, id)
  {
    hide C.CallsHandler;
    LocallyWrites(i, id);
  }

  lemma {:induction false} Unnotified(w: World, s: State, i: Item)
    requires i.id in w.chars && i.id in s.vals && i.value.Some?
    ensures var o := OutcomeOf(w, s, i); o.Replied? && !o.notified ==> o.value == s.vals[i.id]
  {
    hide C.Requested;
    C.WriteOutcome(w.chars[i.id], s.vals[i.id], i.value.value, C.Remote(i.answer));
  }

  /** When a request runs to its end, a characteristic that none of its handlers and
      listeners write holds the value of the last entry that was accepted for it, or
      its old value if none was; whether or not it takes timed writes. */
  lemma {:induction false} LastAcceptedStays(
      w: World, s: State, a: Addr, pid: nat, writes: seq<Item>, id: Id)
    requires IsLive(s, a) && IsOpen(s, a) && id in s.vals
    requires forall k :: 0 <= k < |writes| ==> !WritesLocally(writes[k], id)
    requires IsLive(Apply(w, s, Put(a, pid, writes)), a)
    ensures var s', timed := Apply(w, s, Put(a, pid, writes)), s.sess[a].timed;
            && id in s'.vals
            && (forall k :: 0 <= k < |writes| && Accepted(w, timed, pid, writes[k], id)
                            && (forall n :: k < n < |writes| ==> !Accepted(w, timed, pid, writes[n], id)) ==>
                  s'.vals[id] == Stored(w.chars[id], writes[k].value.value))
            && ((forall k :: 0 <= k < |writes| ==> !Accepted(w, timed, pid, writes[k], id)) ==>
                  s'.vals[id] == s.vals[id])
    decreases |writes|
  {
    hide Apply, Accepted, Stored, WritesLocally;
    var timed := s.sess[a].timed;
    if writes == [] {
      RequestInOrder(w, s, a, pid, [], Item((0, 0), None, 0, C.Crash, [], []));
    } else {
      var n := |writes| - 1;
      var before, i := writes[..n], writes[n];
      assert writes == before + [i];
      var s1 := Apply(w, s, Put(a, pid, before));
      RequestInOrder(w, s, a, pid, before, i);
      LastAcceptedStays(w, s, a, pid, before, id);
      EntryLeaves(w, s.(vals := s1.vals), a, pid, i, id);
      assert forall k :: 0 <= k < n ==> before[k] == writes[k];
    }
  }
}
