/** Where established sessions come from, and that deleting a pairing revokes them. */
module ServerSessions {
  import opened Bytes
  import opened Options
  import opened PairingStore
  import opened ServerSteps
  import C = Characteristic

  // ---- Origin ----

  /** The session of an address, if it has one. */
  function SessionOf(s: State, a: Addr): Option<Session> {
    if a in s.sess then Some(s.sess[a]) else None
  }

  predicate VerifyingWith(s: State, a: Addr, keys: seq<byte>) {
    SessionOf(s, a) == Some(Verifying(keys))
  }

  predicate OpenAs(s: State, a: Addr, p: Pairing) {
    a in s.sess && s.sess[a].Open? && s.sess[a].pairing == p
  }

  lemma {:induction false} StepVerifying(w: World, s: State, e: Event, a: Addr, keys: seq<byte>)
    requires VerifyingWith(Apply(w, s, e), a, keys)
    ensures e == VerifyStart(a, keys) || VerifyingWith(s, a, keys)
  {
    hide PutAll, LocalAll, AddPairing, HasAdmin, AllDeleted, CloseAll, CloseOf, SetupRefused;
  }

  lemma {:induction false} StepOpens(w: World, s: State, e: Event, a: Addr, p: Pairing)
    requires OpenAs(Apply(w, s, e), a, p)
    ensures OpenAs(s, a, p)
            || (e.VerifyFinish? && e.a == a && Can(s, e) && Verifies(w, s, a, e.name, e.proof) && s.st[e.name] == p)
  {
    hide PutAll, LocalAll, AddPairing, HasAdmin, AllDeleted, CloseAll, CloseOf, SetupRefused;
  }

  /** From event `i` on, up to the `n`-th, the address has been verifying. */
  ghost predicate Handshake(w: World, s: State, events: seq<Event>, i: nat, n: nat, a: Addr, keys: seq<byte>)
    requires i < n <= |events|
  {
    && events[i] == VerifyStart(a, keys)
    && forall k :: i < k <= n ==> VerifyingWith(After(w, s, events[..k]), a, keys)
  }

  lemma {:induction false} VerifyingOrigin(w: World, s: State, events: seq<Event>, n: nat, a: Addr, keys: seq<byte>)
    returns (i: nat)
    requires s.sess == map[] && n <= |events|
    requires VerifyingWith(After(w, s, events[..n]), a, keys)
    ensures i < n && Handshake(w, s, events, i, n, a, keys)
    decreases n
  {
    NoEvents(w, s, events);
    assert n > 0;
    hide After, Apply;
    LastStep(w, s, events, n);
    StepVerifying(w, After(w, s, events[..n - 1]), events[n - 1], a, keys);
    if VerifyingWith(After(w, s, events[..n - 1]), a, keys) {
      i := VerifyingOrigin(w, s, events, n - 1, a, keys);
    } else {
      i := n - 1;
    }
  }

  /** In every run, an established session was installed by a final pair-verify
      message of its own address. That message consumed the handshake which a first
      message of that address had started and nothing had replaced since, and it was
      genuine for the pairing that the store then held under the name it gave. */
  lemma {:induction false} OpenOrigin(w: World, s: State, events: seq<Event>, n: nat, a: Addr, p: Pairing)
    returns (i: nat, j: nat, keys: seq<byte>)
    requires s.sess == map[] && n <= |events|
    requires OpenAs(After(w, s, events[..n]), a, p)
    ensures i < j < n && Handshake(w, s, events, i, j, a, keys)
    ensures events[j].VerifyFinish? && events[j].a == a
    ensures var sj := After(w, s, events[..j]);
            && events[j].name in sj.st && sj.st[events[j].name] == p
            && w.genuine(keys, p.publicKey, events[j].name, events[j].proof)
    ensures forall k :: j < k <= n ==> OpenAs(After(w, s, events[..k]), a, p)
    decreases n
  {
    NoEvents(w, s, events);
    assert n > 0;
    hide After, Apply;
    LastStep(w, s, events, n);
    var before := After(w, s, events[..n - 1]);
    StepOpens(w, before, events[n - 1], a, p);
    if OpenAs(before, a, p) {
      i, j, keys := OpenOrigin(w, s, events, n - 1, a, p);
    } else {
      j := n - 1;
      keys := before.sess[a].keys;
      i := VerifyingOrigin(w, s, events, j, a, keys);
    }
  }

  /** A handshake establishes a session exactly when its final message is genuine
      for a stored pairing. */
  lemma {:induction false} HandshakeOpensIff(
      w: World, s: State, a: Addr, keys: seq<byte>, name: Name, proof: seq<byte>, p: Pairing)
    requires IsLive(s, a)
    ensures var s' := Apply(w, Apply(w, s, VerifyStart(a, keys)), VerifyFinish(a, name, proof));
            && (OpenAs(s', a, p) <==> name in s.st && s.st[name] == p && w.genuine(keys, p.publicKey, name, proof))
            && (IsOpen(s', a) ==> s'.sess[a].timed == None)
            && s' == s.(sess := s'.sess) && (forall b :: b != a ==> SessionOf(s', b) == SessionOf(s, b))
  {
  }

  /** A final message that is too short to hold a tag costs its sender the connection,
      exactly when the handshake has come to the final message. */
  lemma {:induction false} TooShortCloses(w: World, s: State, a: Addr, setup: bool)
    requires IsLive(s, a)
    ensures var expected := if setup then s.st == map[] && s.sess == map[a := Setup]
                            else a in s.sess && s.sess[a].Verifying?;
            Apply(w, s, TooShort(a, setup)) == if expected then s.(conns := s.conns[a := Closing]) else s
  {
    if setup && !SetupRefused(s, a) && a in s.sess && s.sess[a].Setup? {
      assert s.sess == map[a := Setup];
    }
  }

  // ---- Revocation ----

  /** Every pairing is stored under its own, valid name. */
  ghost predicate Clean(w: World, st: map<Name, Pairing>) {
    forall n :: n in st ==> st[n].name == n && w.utf8(n) == n
  }

  /** Sessions belong to connections that are not closed; an established session on
      a live connection names a pairing that is still stored. */
  ghost predicate Backed(s: State) {
    && (forall a :: a in s.sess ==> a in s.conns && s.conns[a] != Closed)
    && (forall a :: IsOpen(s, a) && IsLive(s, a) ==> s.sess[a].pairing.name in s.st)
  }

  ghost predicate CleanNames(w: World, events: seq<Event>) {
    forall i :: 0 <= i < |events| ==> CleanName(w, events[i])
  }

  predicate CleanName(w: World, e: Event) {
    (e.SetupSave? || e.Add?) ==> w.utf8(e.name) == e.name
  }

  lemma {:induction false} AllDeletedClean(w: World, st: map<Name, Pairing>)
    requires Clean(w, st)
    ensures AllDeleted(st) == map[]
  {
    forall n | n in st
      ensures n !in AllDeleted(st)
    {
      assert st[n].name == n;
    }
  }

  lemma {:induction false} SavedClean(w: World, st: map<Name, Pairing>, p: Pairing)
    requires Clean(w, st) && w.utf8(p.name) == p.name
    ensures Clean(w, Saved(w.utf8, st, p)) && st.Keys <= Saved(w.utf8, st, p).Keys
  {
  }

  /** A delete revokes, whatever the names: no live connection keeps a session of a
      name that the delete removed. */
  lemma {:induction false} DeleteRevokes(w: World, s: State, name: Name)
    requires name in s.st
    ensures var s' := DeletePairing(w, s, name);
            && s'.sess == s.sess
            && (forall a :: IsLive(s', a) ==> IsLive(s, a))
            && forall a :: IsLive(s', a) && IsOpen(s', a) && s'.sess[a].pairing.name in s.st ==>
                 s'.sess[a].pairing.name in s'.st
  {
    hide HasAdmin, AllDeleted;
  }

  lemma {:induction false} DeleteKeepsBacked(w: World, s: State, name: Name)
    requires Clean(w, s.st) && Backed(s) && name in s.st
    ensures var s' := DeletePairing(w, s, name); Clean(w, s'.st) && Backed(s')
  {
    var p := s.st[name];
    var st := s.st - {p.name};
    assert p.name == name;
    if !HasAdmin(st) {
      AllDeletedClean(w, st);
    }
  }

  lemma {:induction false} SessionSet(s: State, a: Addr, ses: Session)
    requires Backed(s) && IsLive(s, a) && (ses.Open? ==> ses.pairing.name in s.st)
    ensures Backed(s.(sess := s.sess[a := ses]))
  {
  }

  lemma {:induction false} ConnectionClosing(s: State, a: Addr)
    requires Backed(s) && IsLive(s, a)
    ensures Backed(s.(conns := s.conns[a := Closing]))
  {
  }

  lemma {:induction false} ConnectionComes(s: State, a: Addr)
    requires Backed(s) && (a in s.conns ==> s.conns[a] == Closed)
    ensures Backed(s.(conns := s.conns[a := Live]))
  {
  }

  lemma {:induction false} ConnectionGoes(s: State, a: Addr)
    requires Backed(s)
    ensures Backed(s.(conns := s.conns[a := Closed], sess := s.sess - {a}))
  {
  }

  lemma {:induction false} StoreGrows(s: State, st: map<Name, Pairing>)
    requires Backed(s) && s.st.Keys <= st.Keys
    ensures Backed(s.(st := st))
  {
  }

  lemma {:induction false} ValuesSet(s: State, vals: map<Id, C.Val>)
    ensures Backed(s) <==> Backed(s.(vals := vals))
  {
  }

  lemma {:induction false} OpenOnLive(s: State, a: Addr)
    requires Backed(s) && IsLive(s, a) && IsOpen(s, a)
    ensures s.sess[a].pairing.name in s.st
  {
  }

  lemma {:induction false} PutKeepsBacked(w: World, s: State, a: Addr, pid: nat, writes: seq<Item>)
    requires Backed(s) && IsLive(s, a) && IsOpen(s, a)
    ensures var s' := PutRequest(w, s, a, pid, writes); Backed(s') && s'.st == s.st
  {
    hide PutAll, Backed;
    var r := PutAll(w, s.vals, s.sess[a].timed, pid, writes);
    var s1 := s.(vals := r.vals);
    ValuesSet(s, r.vals);
    OpenOnLive(s, a);
    if r.aborted {
      ConnectionClosing(s1, a);
    } else {
      SessionSet(s1, a, s.sess[a].(timed := None));
    }
  }

  lemma {:induction false} AddKeepsBacked(w: World, s: State, name: Name, key: seq<byte>, permission: byte)
    requires Clean(w, s.st) && Backed(s) && w.utf8(name) == name
    ensures var s' := s.(st := AddPairing(w, s.st, name, key, permission)); Clean(w, s'.st) && Backed(s')
  {
    hide Backed, Saved;
    var p := if name in s.st then s.st[name].(permission := permission) else Pairing(name, key, permission);
    SavedClean(w, s.st, p);
    StoreGrows(s, Saved(w.utf8, s.st, p));
  }

  lemma {:induction false} StepKeepsBacked(w: World, s: State, e: Event)
    requires Clean(w, s.st) && Backed(s) && CleanName(w, e)
    ensures var s' := Apply(w, s, e); Clean(w, s'.st) && Backed(s')
  {
    hide PutRequest, LocalAll, DeletePairing, AddPairing, Saved, SetupRefused, Deadline, Backed;
    if Can(s, e) {
      match e
      case Accept(a) => ConnectionComes(s, a);
      case Drop(a) => ConnectionGoes(s, a);
      case SetupStart(a) => SessionSet(s, a, Setup);
      case SetupSave(a, name, key) =>
        SavedClean(w, s.st, Pairing(name, key, ADMIN));
        StoreGrows(s, Saved(w.utf8, s.st, Pairing(name, key, ADMIN)));
      case VerifyStart(a, keys) => SessionSet(s, a, Verifying(keys));
      case VerifyFinish(a, name, proof) =>
        if name in s.st {
          SessionSet(s, a, Open(s.st[name], None));
        }
      case TooShort(a, setup) => ConnectionClosing(s, a);
      case Add(a, name, key, permission) => AddKeepsBacked(w, s, name, key, permission);
      case Delete(a, name) =>
        if name in s.st {
          DeleteKeepsBacked(w, s, name);
        }
      case Prepare(a, ttl, pid, now) =>
        if IsOpen(s, a) {
          OpenOnLive(s, a);
          SessionSet(s, a, s.sess[a].(timed := Some(TimedWrite(Deadline(ttl, now), pid))));
        }
      case Put(a, pid, writes) =>
        if IsOpen(s, a) {
          PutKeepsBacked(w, s, a, pid, writes);
        }
      case Local(l) => ValuesSet(s, LocalAll(w, s.vals, [l]).vals);
    }
  }

  /** In every run over valid names, whatever is added and deleted: an established
      session whose connection is not closing names a stored pairing. */
  lemma {:induction false} SessionsBacked(w: World, s: State, events: seq<Event>)
    requires Clean(w, s.st) && Backed(s) && CleanNames(w, events)
    ensures var s' := After(w, s, events); Clean(w, s'.st) && Backed(s')
    decreases |events|
  {
    if events != [] {
      var n := |events| - 1;
      SessionsBacked(w, s, events[..n]);
      StepKeepsBacked(w, After(w, s, events[..n]), events[n]);
    }
  }

  /** So the pairing of an established session on a live connection is stored, in
      every run of a server without sessions at its start. */
  lemma {:induction false} StillStored(w: World, s: State, events: seq<Event>, j: nat, a: Addr)
    requires s.sess == map[] && Clean(w, s.st) && CleanNames(w, events) && j <= |events|
    requires IsOpen(After(w, s, events[..j]), a) && IsLive(After(w, s, events[..j]), a)
    ensures After(w, s, events[..j]).sess[a].pairing.name in After(w, s, events[..j]).st
  {
    hide After, Clean;
    SessionsBacked(w, s, events[..j]);
  }

  // ---- Names that are not valid UTF-8 ----

  /** The names that a run adds all satisfy `allowed`. */
  ghost predicate NamesIn(allowed: Name -> bool, events: seq<Event>) {
    forall i :: 0 <= i < |events| && (events[i].SetupSave? || events[i].Add?) ==> allowed(events[i].name)
  }

  lemma {:induction false} OneMore(w: World, s: State, events: seq<Event>, e: Event)
    ensures After(w, s, events + [e]) == Apply(w, After(w, s, events), e)
  {
    assert (events + [e])[..|events|] == events;
  }

  /** A fresh server, paired by pair-setup and verified by the new admin. */
  function Verified(w: World, vals: map<Id, C.Val>, name: Name, key: seq<byte>): State {
    var p := Pairing(w.utf8(name), key, ADMIN);
    State(map[name := p], map["a" := Open(p, None)], map["a" := Live], vals)
  }

  /** This state is reached from an empty store, by any name that can be verified. */
  lemma {:induction false} FirstAdmin(
      w: World, vals: map<Id, C.Val>, name: Name, key: seq<byte>, keys: seq<byte>, proof: seq<byte>)
    returns (events: seq<Event>)
    requires w.genuine(keys, key, name, proof)
    ensures forall i :: 0 <= i < |events| && (events[i].SetupSave? || events[i].Add?) ==> events[i].name == name
    ensures After(w, Started(map[], vals), events) == Verified(w, vals, name, key)
  {
    hide PutAll, DeletePairing, AddPairing, After;
    var a := "a";
    var p := Pairing(w.utf8(name), key, ADMIN);
    var s0 := Started(map[], vals);
    var s1 := s0.(conns := map[a := Live]);
    var s2 := s1.(sess := map[a := Setup]);
    var s3 := s2.(st := map[name := p]);
    var s4 := s3.(sess := map[a := Verifying(keys)]);
    events := [Accept(a)];
    NoEvents(w, s0, events);
    OneMore(w, s0, [], Accept(a));
    assert [] + [Accept(a)] == [Accept(a)];
    assert Apply(w, s0, Accept(a)) == s1;
    OneMore(w, s0, events, SetupStart(a));
    assert Apply(w, s1, SetupStart(a)) == s2;
    events := events + [SetupStart(a)];
    OneMore(w, s0, events, SetupSave(a, name, key));
    assert Apply(w, s2, SetupSave(a, name, key)) == s3;
    events := events + [SetupSave(a, name, key)];
    OneMore(w, s0, events, VerifyStart(a, keys));
    assert Apply(w, s3, VerifyStart(a, keys)) == s4;
    events := events + [VerifyStart(a, keys)];
    OneMore(w, s0, events, VerifyFinish(a, name, proof));
    assert Apply(w, s4, VerifyFinish(a, name, proof)) == Verified(w, vals, name, key);
    events := events + [VerifyFinish(a, name, proof)];
  }

  /** A pairing whose name is mangled on saving can be verified, and then its
      session names nothing that is stored. */
  lemma {:induction false} MangledName(
      w: World, vals: map<Id, C.Val>, name: Name, key: seq<byte>, keys: seq<byte>, proof: seq<byte>)
    returns (events: seq<Event>)
    requires w.utf8(name) != name && w.genuine(keys, key, name, proof)
    ensures forall i :: 0 <= i < |events| && (events[i].SetupSave? || events[i].Add?) ==> events[i].name == name
    ensures !Backed(After(w, Started(map[], vals), events))
  {
    events := FirstAdmin(w, vals, name, key, keys, proof);
    hide After;
    var s := Verified(w, vals, name, key);
    assert IsOpen(s, "a") && IsLive(s, "a");
  }

  /** Sessions are backed in all runs over a kind of names exactly when none of
      these names is mangled, provided each can be verified at all. */
  lemma {:induction false} SessionsBackedIff(w: World, vals: map<Id, C.Val>, allowed: Name -> bool)
    requires forall n :: allowed(n) ==> exists key, keys, proof :: w.genuine(keys, key, n, proof)
    ensures (forall events :: NamesIn(allowed, events) ==> Backed(After(w, Started(map[], vals), events)))
            <==> (forall n :: allowed(n) ==> w.utf8(n) == n)
  {
    var s0 := Started(map[], vals);
    if forall n :: allowed(n) ==> w.utf8(n) == n {
      forall events | NamesIn(allowed, events)
        ensures Backed(After(w, s0, events))
      {
        assert CleanNames(w, events);
        SessionsBacked(w, s0, events);
      }
    } else {
      var n :| allowed(n) && w.utf8(n) != n;
      var key, keys, proof :| w.genuine(keys, key, n, proof);
      var events := MangledName(w, vals, n, key, keys, proof);
      assert NamesIn(allowed, events);
    }
  }
}
