/** The server object: its handlers over the pairing store, the sessions, the
    connections and the characteristics. Every handler is tied to its step of the
    transition system. */
module ServerObject {
  import opened Bytes
  import opened Options
  import opened PairingStore
  import opened ServerSteps
  import C = Characteristic

  /** A final message of pair-setup or pair-verify: too short to hold a tag, not what
      it should be, or with a name and a public key or proof. */
  datatype Message = Short | Bad | Sealed(name: Name, data: seq<byte>)

  class Server {
    const world: World
    const store: Storer
    var sess: map<Addr, Session>
    var conns: map<Addr, Link>
    var vals: map<Id, C.Val>

    ghost function View(): State
      reads this, store
    {
      State(store.pairings, sess, conns, vals)
    }

    ghost predicate Valid()
      reads this, store
    {
      store.Valid() && store.json.utf8 == world.utf8 && store.strict == world.strict
    }

    constructor (world: World, store: Storer, vals: map<Id, C.Val>)
      requires store.Valid() && store.json.utf8 == world.utf8 && store.strict == world.strict
      ensures Valid() && View() == Started(store.pairings, vals)
      ensures this.world == world && this.store == store
    {
      this.world, this.store, this.vals := world, store, vals;
      sess, conns := map[], map[];
    }

    // ---- Connections ----

    method Accept(a: Addr)
      requires Valid() && Can(View(), Event.Accept(a))
      modifies this
      ensures Valid() && View() == Step(world, old(View()), Event.Accept(a))
    {
      conns := conns[a := Live];
    }

    method ConnStateClosed(a: Addr)
      requires Valid() && Can(View(), Drop(a))
      modifies this
      ensures Valid() && View() == Step(world, old(View()), Drop(a))
    {
      sess := sess - {a};
      conns := conns[a := Closed];
    }

    method Close(a: Addr)
      requires a in conns
      modifies this`conns
      ensures conns == old(conns)[a := if old(conns)[a] == Live then Closing else old(conns)[a]]
    {
      if conns[a] == Live {
        conns := conns[a := Closing];
      }
    }

    method CloseAllConnections()
      modifies this`conns
      ensures conns == CloseAll(old(conns))
    {
      var rest := conns.Keys;
      while rest != {}
        invariant rest <= conns.Keys == old(conns).Keys
        invariant forall a :: a in conns ==> conns[a] == (if a in rest then old(conns) else CloseAll(old(conns)))[a]
        decreases |rest|
      {
        var a :| a in rest;
        rest := rest - {a};
        Close(a);
      }
    }

    /** Closes the connections whose established session has this pairing name. */
    method CloseConnectionsOf(name: Name)
      modifies this`conns
      ensures conns == CloseOf(old(conns), sess, name)
    {
      var rest := conns.Keys;
      while rest != {}
        invariant rest <= conns.Keys == old(conns).Keys
        invariant forall a :: a in conns ==>
          conns[a] == (if a in rest then old(conns) else CloseOf(old(conns), sess, name))[a]
        decreases |rest|
      {
        var a :| a in rest;
        rest := rest - {a};
        if a in sess && sess[a].Open? {
          if sess[a].pairing.name == name {
            Close(a);
          }
        }
      }
    }

    // ---- Pair-setup and pair-verify ----

    method IsSetupRefused(a: Addr) returns (refused: bool)
      requires Valid()
      ensures refused == SetupRefused(View(), a)
    {
      var paired := store.IsPaired();
      if paired {
        return true;
      }
      var rest := sess.Keys;
      while rest != {}
        invariant rest <= sess.Keys
        invariant forall b :: b in sess && b !in rest ==> b == a
        decreases |rest|
      {
        var b :| b in rest;
        rest := rest - {b};
        if b != a {
          return true;
        }
      }
      return false;
    }

    method PairSetupM1(a: Addr)
      requires Valid() && Can(View(), SetupStart(a))
      modifies this`sess
      ensures Valid() && View() == Step(world, old(View()), SetupStart(a))
    {
      var refused := IsSetupRefused(a);
      if !refused {
        sess := sess[a := Setup];
      }
    }

    /** The last pair-setup message; `Bad` is one that does not decrypt, parse or
        carry a valid signature. */
    method PairSetupM5(a: Addr, m: Message)
      requires Valid() && Can(View(), SetupStart(a))
      modifies this`conns, store
      ensures Valid()
      ensures View() == match m
                        case Short => Step(world, old(View()), TooShort(a, true))
                        case Bad => old(View())
                        case Sealed(name, key) => Step(world, old(View()), SetupSave(a, name, key))
    {
      var refused := IsSetupRefused(a);
      if refused || a !in sess || !sess[a].Setup? {
        return;
      }
      match m {
        case Short => Close(a);
        case Bad =>
        case Sealed(name, key) => store.SavePairing(Pairing(name, key, ADMIN));
      }
    }

    method PairVerifyM1(a: Addr, keys: seq<byte>)
      requires Valid() && Can(View(), VerifyStart(a, keys))
      modifies this`sess
      ensures Valid() && View() == Step(world, old(View()), VerifyStart(a, keys))
    {
      sess := sess[a := Verifying(keys)];
    }

    method PairVerifyM3(a: Addr, m: Message) returns (ok: bool)
      requires Valid() && Can(View(), VerifyStart(a, []))
      modifies this`sess, this`conns
      ensures Valid()
      ensures View() == match m
                        case Short => Step(world, old(View()), TooShort(a, false))
                        case Bad => old(View())
                        case Sealed(name, proof) => Step(world, old(View()), VerifyFinish(a, name, proof))
      ensures ok == (m.Sealed? && Verifies(world, old(View()), a, m.name, m.data))
    {
      ok := false;
      if a !in sess || !sess[a].Verifying? {
        return;
      }
      match m {
        case Short => Close(a);
        case Bad =>
        case Sealed(name, proof) =>
          var pairing := store.PairingNamed(name);
          if pairing.None? {
            return;
          }
          if !world.genuine(sess[a].keys, pairing.value.publicKey, name, proof) {
            return;
          }
          sess := sess[a := Open(pairing.value, None)];
          ok := true;
      }
    }

    // ---- Pairings ----

    method AddPairingRequest(a: Addr, name: Name, publicKey: seq<byte>, permission: byte)
      requires Valid() && Can(View(), Add(a, name, publicKey, permission))
      modifies store
      ensures Valid() && View() == Step(world, old(View()), Add(a, name, publicKey, permission))
    {
      if a !in sess || !sess[a].Open? || sess[a].pairing.permission != ADMIN {
        return;
      }
      var found := store.PairingNamed(name);
      var p;
      if found.None? {
        p := Pairing(name, publicKey, permission);
      } else {
        p := found.value;
        if p.publicKey != publicKey {
          return;
        }
        p := p.(permission := permission);
      }
      store.SavePairing(p);
    }

    method DeletePairingRequest(a: Addr, name: Name)
      requires Valid() && Can(View(), Delete(a, name))
      modifies this`conns, store
      ensures Valid() && View() == Step(world, old(View()), Delete(a, name))
    {
      hide ServerSteps.DeletePairing, Holds, Correct, Records;
      if a !in sess || !sess[a].Open? || sess[a].pairing.permission != ADMIN {
        return;
      }
      var found := store.PairingNamed(name);
      if found.None? {
        return;
      }
      Remove(name, found.value);
    }

    /** Deletes one record, everything if no admin is left, and closes connections. */
    method Remove(ghost name: Name, p: Pairing)
      requires Valid() && name in store.pairings && p == store.pairings[name]
      modifies this`conns, store
      ensures Valid() && View() == DeletePairing(world, old(View()), name)
    {
      hide HasAdmin, AllDeleted, CloseAll, CloseOf, Holds, Correct, Records;
      var deleted := store.DeletePairing(p.name);
      if !deleted {
        assert store.pairings == old(store.pairings);
        return;
      }
      var paired := store.PairedWithAdmin();
      if !paired {
        CloseAllConnections();
        store.DeleteAllPairings();
      }
      CloseConnectionsOf(p.name);
    }

    // ---- Writes ----

    method PrepareCharacteristics(a: Addr, ttl: nat, pid: nat, now: int)
      requires Valid() && Can(View(), Prepare(a, ttl, pid, now))
      modifies this`sess
      ensures Valid() && View() == Step(world, old(View()), Prepare(a, ttl, pid, now))
    {
      if a !in sess || !sess[a].Open? || ttl == 0 || pid == 0 {
        return;
      }
      sess := sess[a := sess[a].(timed := Some(TimedWrite(Deadline(ttl, now), pid)))];
    }

    /** Local writes, until one panics. */
    method WriteLocally(ls: seq<LocalWrite>) returns (goesOn: bool)
      modifies this`vals
      ensures PutResult(vals, !goesOn) == LocalAll(world, old(vals), ls)
    {
      hide C.Requested;
      assert ls[0..] == ls;
      for i := 0 to |ls|
        invariant LocalAll(world, vals, ls[i..]) == LocalAll(world, old(vals), ls)
      {
        assert ls[i..][0] == ls[i] && ls[i..][1..] == ls[i + 1..];
        var l := ls[i];
        if l.id in world.chars && l.id in vals {
          var o := C.Requested(world.chars[l.id], vals[l.id], l.value, C.Origin.Local);
          if o.Panic? {
            return false;
          }
          vals := vals[l.id := o.value];
        }
      }
      return true;
    }

    /** The application sets a value. */
    method SetValue(l: LocalWrite)
      requires Valid()
      modifies this`vals
      ensures Valid() && View() == Step(world, old(View()), Event.Local(l))
    {
      var ok := WriteLocally([l]);
    }

    /** Calls the handler, stores the value and calls the listeners; `false` if one of
        them panics. */
    method Write(i: Item) returns (goesOn: bool)
      requires i.id in world.chars && i.id in vals && i.value.Some?
      modifies this`vals
      ensures PutResult(vals, !goesOn) == WriteItem(world, old(vals), i)
    {
      hide C.Requested, C.CallsHandler, LocalAll;
      var c, before, v, from := world.chars[i.id], vals[i.id], i.value.value, C.Remote(i.answer);
      if C.CallsHandler(c, before, v, from) {
        goesOn := WriteLocally(i.during);
        if !goesOn {
          return;
        }
      }
      var o := C.Requested(c, before, v, from);
      if o.Panic? {
        return false;
      }
      if !o.notified {
        return true;
      }
      vals := vals[i.id := o.value];
      goesOn := WriteLocally(i.after);
    }

    /** Handles one entry; `false` if the handler aborts. */
    method PutOne(timed: Option<TimedWrite>, pid: nat, i: Item) returns (goesOn: bool)
      modifies this`vals
      ensures PutResult(vals, !goesOn) == PutItem(world, old(vals), timed, pid, i)
    {
      hide WriteItem;
      if i.id !in world.chars || i.id !in vals {
        return true;
      }
      var c := world.chars[i.id];
      var status := 0;
      if C.TimedWrite in c.permissions {
        if timed.None? {
          return false;
        }
        if i.now > timed.value.deadline {
          status := C.INVALID_VALUE;
        }
        if pid != timed.value.pid {
          status := C.INVALID_VALUE;
        }
      }
      if i.value.Some? && status == 0 {
        goesOn := Write(i);
        return;
      }
      return true;
    }

    method PutCharacteristics(a: Addr, pid: nat, writes: seq<Item>) returns (completed: bool)
      requires Valid() && Can(View(), Put(a, pid, writes))
      modifies this
      ensures Valid() && View() == Step(world, old(View()), Put(a, pid, writes))
    {
      if a !in sess || !sess[a].Open? {
        return false;
      }
      hide PutItem;
      var timed := sess[a].timed;
      var i := 0;
      assert writes[0..] == writes;
      while i < |writes|
        invariant 0 <= i <= |writes|
        invariant sess == old(sess) && conns == old(conns)
        invariant PutAll(world, vals, timed, pid, writes[i..]) == PutAll(world, old(vals), timed, pid, writes)
      {
        assert writes[i..][0] == writes[i] && writes[i..][1..] == writes[i + 1..];
        var goesOn := PutOne(timed, pid, writes[i]);
        if !goesOn {
          Close(a);
          return false;
        }
        i := i + 1;
      }
      sess := sess[a := sess[a].(timed := None)];
      return true;
    }
  }
}
