/** Admin pairings: a paired server keeps an admin, and what a delete leaves. */
module ServerAdmin {
  import opened Bytes
  import opened PairingStore
  import opened ServerSessions
  import opened ServerSteps

  ghost predicate EmptyOrAdmin(st: map<Name, Pairing>) {
    st == map[] || HasAdmin(st)
  }

  /** Cleaning a name up once is enough. */
  ghost predicate Idempotent(w: World) {
    forall n :: w.utf8(w.utf8(n)) == w.utf8(n)
  }

  /** An accepted request after which nobody is an admin although pairings are left:
      it adds or changes a pairing without the permission while no other record has
      it, or deletes the last record that has it and leaves names that deleting all
      pairings does not reach. */
  ghost predicate LosesAdmin(w: World, s: State, e: Event) {
    && (e.Add? || e.Delete?) && Can(s, e) && IsAdmin(s, e.a)
    && if e.Add? then
         && e.permission != ADMIN
         && if e.name in s.st then s.st[e.name].publicKey == e.publicKey && !HasAdmin(s.st - {w.utf8(e.name)})
            else !HasAdmin(s.st)
       else
         var rest := s.st - {w.utf8(e.name)};
         e.name in s.st && !HasAdmin(rest) && exists n :: n in rest && w.utf8(n) != n
  }

  /** An accepted add-pairing request that takes the permission from the only
      admin. */
  ghost predicate DemotesLastAdmin(s: State, e: Event) {
    && e.Add? && Can(s, e) && IsAdmin(s, e.a)
    && e.permission != ADMIN
    && e.name in s.st && s.st[e.name].publicKey == e.publicKey
    && !HasAdmin(s.st - {e.name})
  }

  lemma {:induction false} AdminWitness(st: map<Name, Pairing>, n: Name)
    requires n in st && st[n].permission == ADMIN
    ensures HasAdmin(st)
  {
  }

  lemma {:induction false} NoNewAdmin(st: map<Name, Pairing>)
    ensures HasAdmin(AllDeleted(st)) ==> HasAdmin(st)
  {
    if HasAdmin(AllDeleted(st)) {
      var n :| n in AllDeleted(st) && AllDeleted(st)[n].permission == ADMIN;
      AdminWitness(st, n);
    }
  }

  lemma {:induction false} SavedAdmin(utf8: Name -> Name, st: map<Name, Pairing>, p: Pairing)
    ensures HasAdmin(Saved(utf8, st, p)) <==> p.permission == ADMIN || HasAdmin(st - {p.name})
  {
    var st' := Saved(utf8, st, p);
    assert p.name in st' && st'[p.name].permission == p.permission;
    if HasAdmin(st - {p.name}) {
      var n :| n in st - {p.name} && st[n].permission == ADMIN;
      AdminWitness(st', n);
    }
    if HasAdmin(st') && p.permission != ADMIN {
      var n :| n in st' && st'[n].permission == ADMIN;
      AdminWitness(st - {p.name}, n);
    }
  }

  // ---- Deleting ----

  /** What is stored after a delete; the file store refuses to delete a record under a
      name it does not have. */
  function DeletedFrom(w: World, st: map<Name, Pairing>, name: Name): map<Name, Pairing> {
    var rest := st - {w.utf8(name)};
    if w.strict && w.utf8(name) !in st then st
    else if HasAdmin(rest) then rest
    else map n | n in rest && w.utf8(n) != n :: rest[n]
  }

  /** A delete of a stored pairing removes the name inside its record; if that leaves no
      admin, it also removes every other valid name. While an admin is left exactly the
      live connections with a session of that name are closed, otherwise all are; and
      nothing happens where the file store refuses. */
  lemma {:induction false} AfterDelete(w: World, s: State, name: Name)
    requires Records(w.utf8, s.st) && Idempotent(w) && name in s.st
    ensures var s' := DeletePairing(w, s, name);
            var refused := w.strict && w.utf8(name) !in s.st;
            && s' == s.(st := DeletedFrom(w, s.st, name), conns := s'.conns)
            && (forall a :: IsLive(s', a) <==>
                  && IsLive(s, a)
                  && (refused
                      || (HasAdmin(s.st - {w.utf8(name)})
                          && !(a in s.sess && s.sess[a].Open? && s.sess[a].pairing.name == w.utf8(name)))))
  {
    var rest := s.st - {w.utf8(name)};
    assert s.st[name].name == w.utf8(name);
    if !HasAdmin(rest) {
      DeleteAllLeaves(w.utf8, rest);
      assert AllDeleted(rest) == map n | n in rest && w.utf8(n) != n :: rest[n];
    }
  }

  /** A delete request does so exactly when its sender is an admin and there is such a
      pairing. */
  lemma {:induction false} DeleteEffect(w: World, s: State, a: Addr, name: Name)
    requires Records(w.utf8, s.st) && Idempotent(w) && IsLive(s, a)
    ensures var s' := Apply(w, s, Delete(a, name));
            if a in s.sess && s.sess[a].Open? && s.sess[a].pairing.permission == 1 && name in s.st then
              && s' == s.(st := DeletedFrom(w, s.st, name), conns := s'.conns)
              && (forall b :: IsLive(s', b) <==>
                    && IsLive(s, b)
                    && ((w.strict && w.utf8(name) !in s.st)
                        || (HasAdmin(s.st - {w.utf8(name)})
                            && !(b in s.sess && s.sess[b].Open? && s.sess[b].pairing.name == w.utf8(name)))))
            else s' == s
  {
    hide HasAdmin, DeletedFrom, Records, Idempotent;
    if name in s.st {
      AfterDelete(w, s, name);
    }
    hide DeletePairing;
  }

  /** A deleted pairing is gone if and only if its name is valid UTF-8. */
  lemma {:induction false} DeletedIff(w: World, s: State, name: Name)
    requires Records(w.utf8, s.st) && Idempotent(w) && name in s.st
    ensures name in DeletePairing(w, s, name).st <==> w.utf8(name) != name
  {
    hide HasAdmin;
    AfterDelete(w, s, name);
  }

  /** After a delete the store is empty or has an admin, whatever it had before, exactly
      when an admin or only valid names remain. */
  lemma {:induction false} AfterDeleteIff(w: World, s: State, name: Name)
    requires Records(w.utf8, s.st) && Idempotent(w) && name in s.st
    ensures var rest := s.st - {w.utf8(name)};
            EmptyOrAdmin(DeletePairing(w, s, name).st) <==> HasAdmin(rest) || forall n :: n in rest ==> w.utf8(n) == n
  {
    var rest := s.st - {w.utf8(name)};
    assert s.st[name].name == w.utf8(name);
    if !HasAdmin(rest) {
      DeleteAllLeaves(w.utf8, rest);
      NoNewAdmin(rest);
    }
  }

  /** In every state an admin who adds a new name and deletes it again finds it gone if
      and only if it is valid. */
  lemma {:induction false} AddThenDelete(
      w: World, s: State, a: Addr, name: Name, key: seq<byte>, permission: byte)
    requires Records(w.utf8, s.st) && Idempotent(w) && IsLive(s, a) && IsAdmin(s, a) && name !in s.st
    ensures var s' := Apply(w, Apply(w, s, Add(a, name, key, permission)), Delete(a, name));
            name in s'.st <==> w.utf8(name) != name
  {
    hide HasAdmin, DeletePairing;
    var s1 := Apply(w, s, Add(a, name, key, permission));
    RecordsKept(w.utf8, s.st, Pairing(name, key, permission), {});
    DeletedIff(w, s1, name);
  }

  /** Such a state is reached from an empty store: the first admin adds a name that is
      not valid, deletes it, and the pairing is still there. */
  lemma {:induction false} DeletedButStored(
      w: World, vals: map<Id, C.Val>, admin: Name, key: seq<byte>, keys: seq<byte>, proof: seq<byte>,
      name: Name, key': seq<byte>)
    returns (events: seq<Event>)
    requires Idempotent(w) && w.genuine(keys, key, admin, proof) && name != admin && w.utf8(name) != name
    ensures |events| > 1 && events[|events| - 1] == Delete("a", name)
    ensures events[|events| - 2] == Add("a", name, key', 0)
    ensures name in After(w, Started(map[], vals), events).st
  {
    hide After, Apply;
    var s0 := Started(map[], vals);
    var run := FirstAdmin(w, vals, admin, key, keys, proof);
    OneMore(w, s0, run, Add("a", name, key', 0));
    OneMore(w, s0, run + [Add("a", name, key', 0)], Delete("a", name));
    events := run + [Add("a", name, key', 0)] + [Delete("a", name)];
    AddThenDelete(w, Verified(w, vals, admin, key), "a", name, key', 0);
  }

  // ---- Every step ----

  /** Every record stays the JSON form of a pairing saved under its name. */
  lemma {:induction false} StepKeepsRecords(w: World, s: State, e: Event)
    requires Records(w.utf8, s.st) && Idempotent(w)
    ensures Records(w.utf8, Apply(w, s, e).st)
  {
    hide PutAll, LocalAll, HasAdmin, CloseAll, CloseOf, SetupRefused, Deadline;
  }

  lemma {:induction false} RecordsStay(w: World, s: State, events: seq<Event>)
    requires Records(w.utf8, s.st) && Idempotent(w)
    ensures Records(w.utf8, After(w, s, events).st)
    decreases |events|
  {
    hide Apply, Records, Idempotent;
    if events != [] {
      var n := |events| - 1;
      RecordsStay(w, s, events[..n]);
      StepKeepsRecords(w, After(w, s, events[..n]), events[n]);
    }
  }

  /** An add-pairing request stores the pairing, or for a known name only its new
      permission, under the name inside its record, exactly when its sender is an admin
      and the public key is not another one; nothing else changes. */
  lemma {:induction false} AddEffect(w: World, s: State, e: Event)
    requires Records(w.utf8, s.st) && Idempotent(w) && e.Add? && Can(s, e)
    ensures Apply(w, s, e)
            == if && e.a in s.sess && s.sess[e.a].Open? && s.sess[e.a].pairing.permission == 1
                  && (e.name in s.st ==> s.st[e.name].publicKey == e.publicKey)
               then s.(st := Granted(w, s.st, e.name, e.publicKey, e.permission))
               else s
  {
    if e.name in s.st {
      assert s.st[e.name].name == w.utf8(e.name);
    }
  }

  /** A new name is stored as it is, a known one under the name in its record. */
  function Granted(w: World, st: map<Name, Pairing>, name: Name, key: seq<byte>, permission: byte): map<Name, Pairing> {
    st[if name in st then w.utf8(name) else name := Pairing(w.utf8(name), key, permission)]
  }

  lemma {:induction false} GrantedAdmin(w: World, st: map<Name, Pairing>, name: Name, key: seq<byte>, permission: byte)
    requires Idempotent(w)
    ensures var other := if name in st then st - {w.utf8(name)} else st;
            EmptyOrAdmin(Granted(w, st, name, key, permission)) <==> permission == ADMIN || HasAdmin(other)
  {
    var at := if name in st then w.utf8(name) else name;
    var p := Pairing(at, key, permission);
    SavedAdmin(w.utf8, st, p);
    assert at in Granted(w, st, name, key, permission);
    assert Granted(w, st, name, key, permission) == Saved(w.utf8, st, p);
    assert name !in st ==> st - {at} == st;
  }

  /** Pair-setup starts exactly while nothing is stored and nobody else has a session. It
      adds a pairing, an admin, exactly in that case and when it was started. */
  lemma {:induction false} SetupPairsFirstAdmin(w: World, s: State, a: Addr, name: Name, key: seq<byte>)
    requires IsLive(s, a)
    ensures Apply(w, s, SetupStart(a))
            == if s.st == map[] && s.sess.Keys <= {a} then s.(sess := map[a := Setup]) else s
    ensures Apply(w, s, SetupSave(a, name, key))
            == if s.st == map[] && s.sess == map[a := Setup] then s.(st := map[name := Pairing(w.utf8(name), key, 1)])
               else s
  {
    if !SetupRefused(s, a) {
      assert s.sess.Keys <= {a};
      assert s.sess[a := Setup] == map[a := Setup];
      assert a in s.sess && s.sess[a].Setup? ==> s.sess == map[a := Setup];
    }
  }

  /** Whatever the names: a step keeps the store empty or with an admin exactly when it
      is no request that `LosesAdmin`. */
  lemma {:induction false} StepKeepsAdmin(w: World, s: State, e: Event)
    requires Records(w.utf8, s.st) && Idempotent(w) && EmptyOrAdmin(s.st)
    ensures EmptyOrAdmin(Apply(w, s, e).st) <==> !LosesAdmin(w, s, e)
  {
    hide PutAll, LocalAll, DeletePairing, AddPairing, Granted, HasAdmin, Deadline, Records, Idempotent;
    if Can(s, e) {
      match e
      case Accept(a) =>
      case Drop(a) =>
      case SetupStart(a) =>
      case SetupSave(a, name, key) =>
        SetupPairsFirstAdmin(w, s, a, name, key);
        if Apply(w, s, e) != s {
          AdminWitness(Apply(w, s, e).st, name);
        }
      case VerifyStart(a, keys) =>
      case VerifyFinish(a, name, proof) =>
      case TooShort(a, setup) =>
      case Add(a, name, key, permission) =>
        AddEffect(w, s, e);
        GrantedAdmin(w, s.st, name, key, permission);
      case Delete(a, name) =>
        if name in s.st {
          AfterDeleteIff(w, s, name);
        }
      case Prepare(a, ttl, pid, now) =>
      case Put(a, pid, writes) =>
      case Local(l) =>
    }
  }

  /** In every run without such a request the store is always empty or has an admin. */
  lemma {:induction false} AdminKept(w: World, s: State, events: seq<Event>)
    requires Records(w.utf8, s.st) && Idempotent(w) && EmptyOrAdmin(s.st)
    requires forall k :: 0 <= k < |events| ==> !LosesAdmin(w, After(w, s, events[..k]), events[k])
    ensures EmptyOrAdmin(After(w, s, events).st)
    decreases |events|
  {
    hide Step, Records, Idempotent, EmptyOrAdmin, LosesAdmin;
    if events != [] {
      var n := |events| - 1;
      forall k | 0 <= k < n
        ensures !LosesAdmin(w, After(w, s, events[..n][..k]), events[..n][k])
      {
        Earlier(events, n, k);
      }
      AdminKept(w, s, events[..n]);
      RecordsStay(w, s, events[..n]);
      StepKeepsAdmin(w, After(w, s, events[..n]), events[n]);
    }
  }

  /** Over valid names, with backed sessions, the only such request is one that takes
      the permission from the last admin. */
  lemma {:induction false} OnlyDemotionLoses(w: World, s: State, e: Event)
    requires Clean(w, s.st) && Backed(s) && CleanName(w, e) && EmptyOrAdmin(s.st)
    ensures LosesAdmin(w, s, e) <==> DemotesLastAdmin(s, e)
  {
    hide HasAdmin;
    if e.Add? && Can(s, e) && IsAdmin(s, e.a) {
      assert s.sess[e.a].pairing.name in s.st;
    }
  }

  // ---- Who changes the store ----

  /** The event may change the pairings, and what it makes of them. */
  ghost predicate ChangesStore(w: World, s: State, e: Event, st: map<Name, Pairing>) {
    match e
    case Accept(a) => false
    case Drop(a) => false
    case SetupStart(a) => false
    case SetupSave(a, name, key) =>
      s.st == map[] && s.sess == map[a := Setup] && st == map[name := Pairing(w.utf8(name), key, ADMIN)]
    case VerifyStart(a, keys) => false
    case VerifyFinish(a, name, proof) => false
    case TooShort(a, setup) => false
    case Add(a, name, key, permission) =>
      && IsAdmin(s, a) && (name in s.st ==> s.st[name].publicKey == key)
      && st == Granted(w, s.st, name, key, permission)
    case Delete(a, name) =>
      IsAdmin(s, a) && name in s.st && st == DeletedFrom(w, s.st, name)
    case Prepare(a, ttl, pid, now) => false
    case Put(a, pid, writes) => false
    case Local(l) => false
  }

  lemma {:induction false} StepChangesStore(w: World, s: State, e: Event)
    requires Records(w.utf8, s.st) && Idempotent(w) && Apply(w, s, e).st != s.st
    ensures Can(s, e) && ChangesStore(w, s, e, Apply(w, s, e).st)
  {
    hide PutAll, LocalAll, AddPairing, DeletePairing, Deadline, Granted, DeletedFrom;
    match e
    case Accept(a) =>
    case Drop(a) =>
    case SetupStart(a) =>
    case SetupSave(a, name, key) => SetupPairsFirstAdmin(w, s, a, name, key);
    case VerifyStart(a, keys) =>
    case VerifyFinish(a, name, proof) =>
    case TooShort(a, setup) =>
    case Add(a, name, key, permission) => AddEffect(w, s, e);
    case Delete(a, name) => AfterDelete(w, s, name);
    case Prepare(a, ttl, pid, now) =>
    case Put(a, pid, writes) =>
    case Local(l) =>
  }

  /** In every run the pairings change only when pair-setup pairs the first admin while
      nobody else has a session, or when a pairing is added, changed or deleted at the
      request of an address that was verified as an admin by a genuine handshake of its
      own; over valid names that admin's pairing is still stored. */
  lemma {:induction false} StoreChanges(w: World, s: State, events: seq<Event>, j: nat)
    returns (p: Pairing, start: nat, finish: nat, keys: seq<byte>)
    requires s.sess == map[] && Records(w.utf8, s.st) && Idempotent(w) && j < |events|
    requires After(w, s, events[..j + 1]).st != After(w, s, events[..j]).st
    ensures ChangesStore(w, After(w, s, events[..j]), events[j], After(w, s, events[..j + 1]).st)
    ensures events[j].SetupSave? || events[j].Add? || events[j].Delete?
    ensures events[j].Add? || events[j].Delete? ==>
      && OpenAs(After(w, s, events[..j]), events[j].a, p) && p.permission == ADMIN
      && (Clean(w, s.st) && CleanNames(w, events) ==> p.name in After(w, s, events[..j]).st)
      && start < finish < j && Handshake(w, s, events, start, finish, events[j].a, keys)
      && events[finish].VerifyFinish? && events[finish].a == events[j].a
      && w.genuine(keys, p.publicKey, events[finish].name, events[finish].proof)
  {
    hide Apply, Handshake, After, Clean, Records, Idempotent;
    var e, before := events[j], After(w, s, events[..j]);
    LastStep(w, s, events, j + 1);
    RecordsStay(w, s, events[..j]);
    StepChangesStore(w, before, e);
    if e.Add? || e.Delete? {
      p := before.sess[e.a].pairing;
      start, finish, keys := OpenOrigin(w, s, events, j, e.a, p);
      if Clean(w, s.st) && CleanNames(w, events) {
        StillStored(w, s, events, j, e.a);
      }
    } else {
      p, start, finish, keys := Pairing([], [], 0), 0, 0, [];
    }
  }
}
