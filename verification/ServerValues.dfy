/** Who changes the values of characteristics over a run of the server, and to what. */
module ServerValues {
  import opened Bytes
  import opened PairingStore
  import opened ServerSessions
  import opened ServerSteps
  import opened ServerWrites

  /** Over every run of the server, with all local writes, all values stay within
      their bounds and in their valid sets. */
  lemma {:induction false} ValuesStaySound(w: World, s: State, events: seq<Event>)
    requires ValuesSound(w, s.vals)
    ensures ValuesSound(w, After(w, s, events).vals)
    decreases |events|
  {
    hide Step, Apply, PutAll, LocalAll, ValuesSound;
    if events != [] {
      var n := |events| - 1;
      var e, before := events[n], After(w, s, events[..n]);
      ValuesStaySound(w, s, events[..n]);
      StepWrites(w, before, e);
      if e.Local? {
        LocalAllKeepsSound(w, before.vals, [e.write]);
      }
      if e.Put? && IsOpen(before, e.a) {
        PutAllKeepsSound(w, before.vals, before.sess[e.a].timed, e.pid, e.writes);
      }
    }
  }

  /** The request of event `j` has a permitted entry that names the characteristic, or
      whose handler or listeners write it locally; its address is established as `p`. */
  ghost predicate ChangedByRequest(w: World, s: State, events: seq<Event>, j: nat, id: Id, p: Pairing)
    requires j < |events|
  {
    var e, before := events[j], After(w, s, events[..j]);
    && e.Put? && OpenAs(before, e.a, p)
    && exists k :: 0 <= k < |e.writes| && Causes(w, before.sess[e.a].timed, e.pid, e.writes[k], id)
  }

  /** In every run a value changes only by a local write of the
      application, or by a request with a permitted entry that names it or that makes
      a handler or listener write it; and such a request comes on behalf of a pairing
      that its address has proved by a genuine handshake of its own, and that over valid
      names is still stored. */
  lemma {:induction false} ValueChanges(w: World, s: State, events: seq<Event>, j: nat, id: Id)
    returns (p: Pairing, start: nat, finish: nat, keys: seq<byte>)
    requires s.sess == map[] && j < |events|
    requires var before, after := After(w, s, events[..j]), After(w, s, events[..j + 1]);
             id in before.vals && id in after.vals && before.vals[id] != after.vals[id]
    ensures (events[j].Local? && events[j].write.id == id) || ChangedByRequest(w, s, events, j, id, p)
    ensures events[j].Put? ==>
      && (Clean(w, s.st) && CleanNames(w, events) ==> p.name in After(w, s, events[..j]).st)
      && start < finish < j && Handshake(w, s, events, start, finish, events[j].a, keys)
      && events[finish].VerifyFinish? && events[finish].a == events[j].a
      && w.genuine(keys, p.publicKey, events[finish].name, events[finish].proof)
  {
    hide Step, PutAll, LocalAll, Handshake, After, Causes;
    var e, before := events[j], After(w, s, events[..j]);
    LastStep(w, s, events, j + 1);
    StepWrites(w, before, e);
    if e.Local? {
      LocalAllChanges(w, before.vals, [e.write], id);
      p, start, finish, keys := Pairing([], [], 0), 0, 0, [];
    } else {
      PutChanges(w, before.vals, before.sess[e.a].timed, e.pid, e.writes, id);
      p := before.sess[e.a].pairing;
      start, finish, keys := OpenOrigin(w, s, events, j, e.a, p);
      if Clean(w, s.st) && CleanNames(w, events) {
        StillStored(w, s, events, j, e.a);
      }
    }
  }
}
