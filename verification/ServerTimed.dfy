/** Timed writes: a prepare authorises at most one completed write request. */
module ServerTimed {
  import opened Bytes
  import opened Options
  import opened PairingStore
  import opened ServerSteps
  import opened ServerStores
  import opened ServerWrites
  import C = Characteristic
  import Schedule

  function TimedAt(s: State, a: Addr): Option<TimedWrite> {
    if IsOpen(s, a) then s.sess[a].timed else None
  }

  // ---- One request ----

  predicate NeedsPrepare(w: World, vals: map<Id, C.Val>, i: Item) {
    i.id in vals && IsTimed(w, i.id)
  }

  /** Without a prepare, the first entry that needs one aborts the request: what
      came before it stays done, it and what follows are not. */
  lemma {:induction false} UnpreparedAborts(
      w: World, vals: map<Id, C.Val>, pid: nat, before: seq<Item>, i: Item, rest: seq<Item>)
    requires NeedsPrepare(w, vals, i)
    requires var r := PutAll(w, vals, None, pid, before); !r.aborted
    ensures PutAll(w, vals, None, pid, before + ([i] + rest))
            == PutResult(PutAll(w, vals, None, pid, before).vals, true)
    decreases |before|
  {
    var all := before + ([i] + rest);
    if before == [] {
      assert all[0] == i;
    } else {
      assert all[0] == before[0] && all[1..] == before[1..] + ([i] + rest);
      var r := PutItem(w, vals, None, pid, before[0]);
      PutItemKeepsKeys(w, vals, None, pid, before[0]);
      UnpreparedAborts(w, r.vals, pid, before[1..], i, rest);
    }
  }

  /** A time to live of `ttl` milliseconds that starts at `now`, in nanoseconds, ends at
      `d`: the product is an int64. */
  predicate Ends(ttl: nat, now: int, d: int) {
    && -0x8000_0000_0000_0000 <= d - now < 0x8000_0000_0000_0000
    && (ttl * 1000000 - (d - now)) % 0x1_0000_0000_0000_0000 == 0
  }

  /** Up to some 292 years the deadline is where it should be. */
  lemma {:induction false} DeadlineIs(ttl: nat, now: int, d: int)
    ensures d == Deadline(ttl, now) <==> Ends(ttl, now, d)
    ensures ttl < 9223372036854 ==> Deadline(ttl, now) == now + ttl * 1000000
  {
    var x := ttl * 1000000;
    var k := Schedule.WrapIsNear(x);
    hide Schedule.Wrap;
    var y := x - Schedule.Wrap(x);
    assert y == k * Schedule.TWO_64 && y % Schedule.TWO_64 == 0 by {
      DivisionUnique(y, Schedule.TWO_64, k, 0);
    }
    if Ends(ttl, now, d) {
      var z := x - (d - now);
      Schedule.WrapUnique(x, d - now, z / Schedule.TWO_64);
    }
    if x < Schedule.TWO_63 {
      Schedule.WrapUnique(x, x, 0);
    }
  }

  /** A prepared request for one characteristic: up to the deadline and with the prepared
      transaction it is written like any other value, else it is not. Either way the
      prepare is spent and nothing else changes, unless the write panics: then the
      connection is lost. */
  lemma {:induction false} PreparedWrite(
      w: World, s: State, a: Addr, ttl: nat, pid: nat, now: int, pid': nat, i: Item, d: int)
    requires IsLive(s, a) && IsOpen(s, a) && ttl != 0 && pid != 0 && Ends(ttl, now, d)
    requires i.id in w.chars && i.id in s.vals && i.value.Some? && C.TimedWrite in w.chars[i.id].permissions
    ensures var s1 := Apply(w, s, Prepare(a, ttl, pid, now));
            var s' := Apply(w, s1, Put(a, pid', [i]));
            var o := C.Requested(w.chars[i.id], s.vals[i.id], i.value.value, C.Remote(i.answer));
            var spent := s.(sess := s.sess[a := s.sess[a].(timed := None)]);
            && s1 == s.(sess := s.sess[a := s.sess[a].(timed := Some(TimedWrite(d, pid)))])
            && if d < i.now || pid' != pid then s' == spent
               else if EntryPanics(w, s, i) then s' == s1.(vals := s'.vals, conns := s.conns[a := Closing])
               else
                 && s' == spent.(vals := s'.vals) && i.id in s'.vals
                 && (o.Replied? && o.notified && !ListensTo(i.after, i.id) ==> s'.vals[i.id] == o.value)
                 && (o.Replied? && !o.notified && !ListensTo(i.during, i.id) ==> s'.vals[i.id] == s.vals[i.id])
  {
    DeadlineIs(ttl, now, d);
    hide Deadline, Ends, Schedule.Wrap, ListensTo, C.Requested;
    var s1 := Apply(w, s, Prepare(a, ttl, pid, now));
    assert s1 == s.(sess := s.sess[a := s.sess[a].(timed := Some(TimedWrite(d, pid)))]);
    if d < i.now || pid' != pid {
      EntrySkipped(w, s1, a, pid', i);
    } else {
      EntryPerformed(w, s1, a, pid', i);
      PerformedStores(w, s1, i);
    }
    hide Apply, Performed, EntryPanics, Stores, OutcomeOf;
  }

  // ---- Runs ----

  /** What ends or replaces the prepare of an address: a later prepare, a write
      request that completes, a new session, or the end of the connection. */
  predicate Resets(w: World, s: State, e: Event, a: Addr) {
    Can(s, e) &&
    match e
    case Accept(b) => false
    case Drop(b) => b == a
    case SetupStart(b) => b == a && !SetupRefused(s, b)
    case SetupSave(b, n, k) => false
    case VerifyStart(b, k) => b == a
    case VerifyFinish(b, n, p) => b == a && Verifies(w, s, b, n, p)
    case TooShort(b, setup) => false
    case Add(b, n, k, p) => false
    case Delete(b, n) => false
    case Prepare(b, t, p, n) => b == a && IsOpen(s, b) && t != 0 && p != 0
    case Put(b, p, ws) => b == a && IsOpen(s, b) && !PutAll(w, s.vals, s.sess[b].timed, p, ws).aborted
    case Local(l) => false
  }

  /** An accepted prepare that sets the given deadline and transaction. */
  predicate Prepares(s: State, e: Event, a: Addr, t: TimedWrite) {
    && e.Prepare? && e.a == a && Can(s, e) && IsOpen(s, a)
    && e.ttl != 0 && e.pid != 0 && Ends(e.ttl, e.now, t.deadline) && t.pid == e.pid
  }

  lemma {:induction false} StepTimed(w: World, s: State, e: Event, a: Addr)
    ensures var after := TimedAt(Apply(w, s, e), a);
            if !Resets(w, s, e, a) then after == TimedAt(s, a)
            else after == None || Prepares(s, e, a, after.value)
  {
    hide PutAll, LocalAll, AddPairing, DeletePairing, SetupRefused, Deadline, Ends;
    if e.Prepare? {
      DeadlineIs(e.ttl, e.now, Deadline(e.ttl, e.now));
    }
    if e.Delete? && Can(s, e) && IsAdmin(s, e.a) && e.name in s.st {
      DeleteKeepsSessions(w, s, e.name);
    }
  }

  lemma {:induction false} DeleteKeepsSessions(w: World, s: State, name: Name)
    requires name in s.st
    ensures DeletePairing(w, s, name).sess == s.sess
  {
  }

  /** Event `i` is the last one before the `n`-th that set or reset the prepare of
      the address, and it set `t`. */
  ghost predicate Outstanding(w: World, s: State, events: seq<Event>, i: nat, n: nat, a: Addr, t: TimedWrite)
    requires i < n <= |events|
  {
    && Prepares(After(w, s, events[..i]), events[i], a, t)
    && forall k :: i < k < n ==> !Resets(w, After(w, s, events[..k]), events[k], a)
  }

  lemma {:induction false} NothingTimed(s: State, a: Addr)
    requires s.sess == map[]
    ensures TimedAt(s, a) == None
  {
  }

  lemma {:induction false} TimedOrigin(w: World, s: State, events: seq<Event>, n: nat, a: Addr, t: TimedWrite)
    returns (i: nat)
    requires s.sess == map[] && n <= |events|
    requires TimedAt(After(w, s, events[..n]), a) == Some(t)
    ensures i < n && Outstanding(w, s, events, i, n, a, t)
    decreases n
  {
    hide After, Apply, Prepares, Resets, TimedAt;
    NoEvents(w, s, events);
    NothingTimed(s, a);
    assert n > 0;
    LastStep(w, s, events, n);
    var before := After(w, s, events[..n - 1]);
    StepTimed(w, before, events[n - 1], a);
    if Resets(w, before, events[n - 1], a) {
      i := n - 1;
    } else {
      i := TimedOrigin(w, s, events, n - 1, a, t);
    }
  }

  /** Event `j` is a write request with an entry for a characteristic that takes
      timed writes, and that entry is let through. */
  ghost predicate ExecutesTimed(w: World, s: State, events: seq<Event>, j: nat, k: nat)
    requires j < |events|
  {
    var e, before := events[j], After(w, s, events[..j]);
    && e.Put? && Can(before, e) && IsOpen(before, e.a)
    && k < |e.writes| && IsTimed(w, e.writes[k].id)
    && LetThrough(w, before.sess[e.a].timed, e.pid, e.writes[k])
  }

  /** In every run, such an entry is let through only if its address has an earlier
      accepted prepare with the request's transaction, which no later prepare,
      completed write, new session or closed connection has reset, and whose
      deadline the entry keeps. */
  lemma {:induction false} TimedWriteAuthorised(w: World, s: State, events: seq<Event>, j: nat, k: nat)
    returns (i: nat, t: TimedWrite)
    requires s.sess == map[] && j < |events| && ExecutesTimed(w, s, events, j, k)
    ensures i < j && Outstanding(w, s, events, i, j, events[j].a, t)
    ensures t.pid == events[j].pid && events[j].writes[k].now <= t.deadline
  {
    var e := events[j];
    var before := After(w, s, events[..j]);
    t := before.sess[e.a].timed.value;
    i := TimedOrigin(w, s, events, j, e.a, t);
  }

  /** In every run, the value of such a characteristic changes only by a local write:
      of the application, or of the handler or listeners of a permitted entry; or
      through an entry that names it and that is let through. */
  lemma {:induction false} TimedValueChanges(w: World, s: State, events: seq<Event>, j: nat, id: Id)
    requires j < |events| && IsTimed(w, id)
    requires var before, after := After(w, s, events[..j]), After(w, s, events[..j + 1]);
             id in before.vals && id in after.vals && before.vals[id] != after.vals[id]
    ensures (events[j].Local? && events[j].write.id == id)
            || (events[j].Put? && exists k ::
                  0 <= k < |events[j].writes|
                  && Causes(w, TimedAt(After(w, s, events[..j]), events[j].a), events[j].pid, events[j].writes[k], id)
                  && (events[j].writes[k].id == id ==> ExecutesTimed(w, s, events, j, k)))
  {
    var e, before := events[j], After(w, s, events[..j]);
    hide PutAll, LocalAll, WritesLocally, LetThrough;
    LastStep(w, s, events, j + 1);
    StepWrites(w, before, e);
    if e.Local? {
      LocalAllChanges(w, before.vals, [e.write], id);
    } else {
      PutChanges(w, before.vals, before.sess[e.a].timed, e.pid, e.writes, id);
      var k :| 0 <= k < |e.writes| && Causes(w, before.sess[e.a].timed, e.pid, e.writes[k], id);
      assert e.writes[k].id == id ==> ExecutesTimed(w, s, events, j, k);
    }
  }

  /** The request of an address runs to its end. */
  predicate Completes(w: World, s: State, e: Event) {
    e.Put? && Can(s, e) && IsOpen(s, e.a) && !PutAll(w, s.vals, s.sess[e.a].timed, e.pid, e.writes).aborted
  }

  /** So each prepare authorises at most one completed request: when entries of a
      completed and of a later request of an address are let through, they rely on
      different prepares, the second one made after the first request. */
  lemma {:induction false} PrepareUsedOnce(
      w: World, s: State, events: seq<Event>, j: nat, j': nat, k: nat, k': nat)
    returns (i: nat, t: TimedWrite, i': nat, t': TimedWrite)
    requires s.sess == map[] && j < j' < |events|
    requires ExecutesTimed(w, s, events, j, k) && ExecutesTimed(w, s, events, j', k')
    requires events[j].a == events[j'].a
    requires Completes(w, After(w, s, events[..j]), events[j])
    ensures i < j < i' < j'
    ensures Outstanding(w, s, events, i, j, events[j].a, t) && Outstanding(w, s, events, i', j', events[j].a, t')
  {
    hide PutAll, After, ExecutesTimed, IsOpen, Can;
    var before := After(w, s, events[..j]);
    assert Resets(w, before, events[j], events[j].a);
    assert forall x :: !Prepares(before, events[j], events[j].a, x);
    hide Resets, Prepares, Completes;
    i, t := TimedWriteAuthorised(w, s, events, j, k);
    i', t' := TimedWriteAuthorised(w, s, events, j', k');
  }
}
