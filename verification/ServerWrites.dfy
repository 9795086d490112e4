/** What one write request does to the values of characteristics. */
module ServerWrites {
  import opened Options
  import opened PairingStore
  import opened ServerSteps
  import C = Characteristic

  /** The handler of an entry or the listeners of its value write this
      characteristic locally. */
  predicate WritesLocally(i: Item, id: Id) {
    (exists k :: 0 <= k < |i.during| && i.during[k].id == id) || (exists k :: 0 <= k < |i.after| && i.after[k].id == id)
  }

  /** An entry with a value for a characteristic that may be written, and may be
      written now. */
  predicate Permitted(w: World, timed: Option<TimedWrite>, pid: nat, i: Item) {
    LetThrough(w, timed, pid, i) && i.value.Some? && C.Write in w.chars[i.id].permissions
  }

  /** The entry can change this characteristic. */
  predicate Causes(w: World, timed: Option<TimedWrite>, pid: nat, i: Item, id: Id) {
    Permitted(w, timed, pid, i) && (i.id == id || WritesLocally(i, id))
  }

  lemma {:induction false} LocalAllChanges(w: World, vals: map<Id, C.Val>, ls: seq<LocalWrite>, id: Id)
    ensures var vals' := LocalAll(w, vals, ls).vals;
            && vals'.Keys == vals.Keys
            && (id in vals && vals'[id] != vals[id] ==> exists k :: 0 <= k < |ls| && ls[k].id == id)
    decreases |ls|
  {
    hide C.Requested;
    if ls != [] {
      var l := ls[0];
      var next := if l.id in w.chars && l.id in vals
                  then
                    var o := C.Requested(w.chars[l.id], vals[l.id], l.value, C.Local);
                    if o.Panic? then vals else vals[l.id := o.value]
                  else vals;
      LocalAllChanges(w, next, ls[1..], id);
      if k :| 0 <= k < |ls[1..]| && ls[1..][k].id == id {
        assert ls[k + 1].id == id;
      }
      assert ls[0] == l;
    }
  }

  lemma {:induction false} WriteItemChanges(w: World, vals: map<Id, C.Val>, i: Item, id: Id)
    requires i.id in w.chars && i.id in vals && i.value.Some?
    ensures var vals' := WriteItem(w, vals, i).vals;
            && vals'.Keys == vals.Keys
            && (id in vals && vals'[id] != vals[id] ==>
                C.Write in w.chars[i.id].permissions && (i.id == id || WritesLocally(i, id)))
  {
    hide C.Requested, LocalAll, WritesLocally;
    var from := C.Remote(i.answer);
    var o := C.Requested(w.chars[i.id], vals[i.id], i.value.value, from);
    C.WriteOutcome(w.chars[i.id], vals[i.id], i.value.value, from);
    LocalAllChanges(w, vals, i.during, id);
    LocallyWrites(i, id);
    var h := Handled(w, vals, i).vals;
    if o.Replied? {
      LocalAllChanges(w, h[i.id := o.value], i.after, id);
    }
  }

  lemma {:induction false} PutItemKeepsKeys(
      w: World, vals: map<Id, C.Val>, timed: Option<TimedWrite>, pid: nat, i: Item)
    ensures PutItem(w, vals, timed, pid, i).vals.Keys == vals.Keys
  {
    if i.id in w.chars && i.id in vals && i.value.Some? {
      WriteItemChanges(w, vals, i, i.id);
    }
  }

  lemma {:induction false} LocallyWrites(i: Item, id: Id)
    ensures (exists k :: 0 <= k < |i.during| && i.during[k].id == id) ==> WritesLocally(i, id)
    ensures (exists k :: 0 <= k < |i.after| && i.after[k].id == id) ==> WritesLocally(i, id)
  {
  }

  /** A request changes a value only through a permitted entry that names the
      characteristic, or whose handler or listeners write it locally. */
  lemma {:induction false} PutChanges(
      w: World, vals: map<Id, C.Val>, timed: Option<TimedWrite>, pid: nat, writes: seq<Item>, id: Id)
    ensures var vals' := PutAll(w, vals, timed, pid, writes).vals;
            && vals'.Keys == vals.Keys
            && (id in vals && vals'[id] != vals[id] ==>
                exists k :: 0 <= k < |writes| && Causes(w, timed, pid, writes[k], id))
    decreases |writes|
  {
    if writes != [] {
      hide WriteItem, WritesLocally, LetThrough;
      var i := writes[0];
      var r := PutItem(w, vals, timed, pid, i);
      if i.id in w.chars && i.id in vals && i.value.Some? {
        WriteItemChanges(w, vals, i, id);
      }
      if id in vals && r.vals[id] != vals[id] {
        assert Causes(w, timed, pid, writes[0], id);
      }
      if !r.aborted {
        PutChanges(w, r.vals, timed, pid, writes[1..], id);
        if k :| 0 <= k < |writes[1..]| && Causes(w, timed, pid, writes[1..][k], id) {
          assert Causes(w, timed, pid, writes[k + 1], id);
        }
      }
    }
  }

  /** Values change only in write requests of established sessions and by local
      writes. */
  lemma {:induction false} StepWrites(w: World, s: State, e: Event)
    ensures var s' := Apply(w, s, e);
            s'.vals == s.vals
            || (e.Local? && s'.vals == LocalAll(w, s.vals, [e.write]).vals)
            || (e.Put? && Can(s, e) && IsOpen(s, e.a)
                && s'.vals == PutAll(w, s.vals, s.sess[e.a].timed, e.pid, e.writes).vals)
  {
    hide PutAll, LocalAll, AddPairing, DeletePairing, SetupRefused, Deadline;
    if e.Delete? && Can(s, e) && IsAdmin(s, e.a) && e.name in s.st {
      DeleteKeepsValues(w, s, e.name);
    }
  }

  lemma {:induction false} DeleteKeepsValues(w: World, s: State, name: Name)
    requires name in s.st
    ensures DeletePairing(w, s, name).vals == s.vals
  {
  }

  // ---- Bounds and valid sets ----

  ghost predicate ValuesSound(w: World, vals: map<Id, C.Val>) {
    forall id :: id in vals && id in w.chars ==> C.Ordered(w.chars[id]) && C.Sound(w.chars[id], vals[id])
  }

  lemma {:induction false} LocalAllKeepsSound(w: World, vals: map<Id, C.Val>, ls: seq<LocalWrite>)
    requires ValuesSound(w, vals)
    ensures ValuesSound(w, LocalAll(w, vals, ls).vals)
    decreases |ls|
  {
    hide C.Sound, C.Ordered, C.Requested;
    if ls != [] {
      var l := ls[0];
      if l.id !in w.chars || l.id !in vals {
        LocalAllKeepsSound(w, vals, ls[1..]);
      } else {
        var o := C.Requested(w.chars[l.id], vals[l.id], l.value, C.Local);
        C.NotifiedIsSound(w.chars[l.id], vals[l.id], l.value, C.Local);
        if o.Replied? {
          LocalAllKeepsSound(w, vals[l.id := o.value], ls[1..]);
        }
      }
    }
  }

  lemma {:induction false} WriteItemKeepsSound(w: World, vals: map<Id, C.Val>, i: Item)
    requires ValuesSound(w, vals) && i.id in w.chars && i.id in vals && i.value.Some?
    ensures ValuesSound(w, WriteItem(w, vals, i).vals)
  {
    hide C.Sound, C.Ordered, C.Requested, LocalAll;
    var from := C.Remote(i.answer);
    var o := C.Requested(w.chars[i.id], vals[i.id], i.value.value, from);
    C.NotifiedIsSound(w.chars[i.id], vals[i.id], i.value.value, from);
    LocalAllKeepsSound(w, vals, i.during);
    var h := Handled(w, vals, i).vals;
    if o.Replied? && o.notified {
      LocalAllKeepsSound(w, h[i.id := o.value], i.after);
    }
  }

  lemma {:induction false} PutAllKeepsSound(
      w: World, vals: map<Id, C.Val>, timed: Option<TimedWrite>, pid: nat, writes: seq<Item>)
    requires ValuesSound(w, vals)
    ensures ValuesSound(w, PutAll(w, vals, timed, pid, writes).vals)
    decreases |writes|
  {
    hide ValuesSound, WriteItem;
    if writes != [] {
      var i := writes[0];
      if i.id in w.chars && i.id in vals && i.value.Some? {
        WriteItemKeepsSound(w, vals, i);
      }
      var r := PutItem(w, vals, timed, pid, i);
      if !r.aborted {
        PutAllKeepsSound(w, r.vals, timed, pid, writes[1..]);
      }
    }
  }
}
