/** The server as a transition system: the pairing store, a session per address,
    connections that are open or closing, and the values of characteristics. One
    event is one handled request, a connection coming or going, or a write by the
    application itself. */
module ServerSteps {
  import opened Bytes
  import opened Options
  import opened PairingStore
  import C = Characteristic
  import Schedule

  type Addr = string
  type Id = (nat, nat)

  datatype TimedWrite = TimedWrite(deadline: int, pid: nat)

  datatype Session = Setup | Verifying(keys: seq<byte>) | Open(pairing: Pairing, timed: Option<TimedWrite>)

  datatype Link = Live | Closing | Closed

  /** What does not change while the server runs. `genuine` says whether the final
      message of pair-verify decrypts under the keys of the handshake and is signed
      for the name with the paired public key; `strict`, whether the store fails to
      delete a missing key. */
  datatype World = World(
    utf8: Name -> Name,
    genuine: (seq<byte>, seq<byte>, Name, seq<byte>) -> bool,
    strict: bool,
    chars: map<Id, C.Config>)

  datatype State = State(
    st: map<Name, Pairing>, sess: map<Addr, Session>, conns: map<Addr, Link>, vals: map<Id, C.Val>)

  /** A write by the application, without a request. */
  datatype LocalWrite = LocalWrite(id: Id, value: C.Val)

  /** One entry of a write request, with the clock reading when it is reached. If it
      gets that far, its handler makes the local writes `during` and answers
      `answer`, and the listeners of the new value make the local writes `after`. */
  datatype Item = Item(
    id: Id, value: Option<C.Val>, now: int, answer: C.Answer, during: seq<LocalWrite>, after: seq<LocalWrite>)

  datatype Event =
    | Accept(a: Addr)
    | Drop(a: Addr)
    | SetupStart(a: Addr)
    | SetupSave(a: Addr, name: Name, publicKey: seq<byte>)
    | VerifyStart(a: Addr, keys: seq<byte>)
    | VerifyFinish(a: Addr, name: Name, proof: seq<byte>)
    | TooShort(a: Addr, setup: bool)
    | Add(a: Addr, name: Name, publicKey: seq<byte>, permission: byte)
    | Delete(a: Addr, name: Name)
    | Prepare(a: Addr, ttl: nat, pid: nat, now: int)
    | Put(a: Addr, pid: nat, writes: seq<Item>)
    | Local(write: LocalWrite)

  /** A connection comes from a free address, goes once, and sends requests only
      while nobody has closed it; the application writes at any time. */
  predicate Can(s: State, e: Event) {
    match e
    case Accept(a) => a in s.conns ==> s.conns[a] == Closed
    case Drop(a) => a in s.conns && s.conns[a] != Closed
    case SetupStart(a) => IsLive(s, a)
    case SetupSave(a, n, k) => IsLive(s, a)
    case VerifyStart(a, k) => IsLive(s, a)
    case VerifyFinish(a, n, p) => IsLive(s, a)
    case TooShort(a, setup) => IsLive(s, a)
    case Add(a, n, k, p) => IsLive(s, a)
    case Delete(a, n) => IsLive(s, a)
    case Prepare(a, t, p, n) => IsLive(s, a)
    case Put(a, p, ws) => IsLive(s, a)
    case Local(l) => true
  }

  predicate IsLive(s: State, a: Addr) {
    a in s.conns && s.conns[a] == Live
  }

  predicate IsOpen(s: State, a: Addr) {
    a in s.sess && s.sess[a].Open?
  }

  predicate IsAdmin(s: State, a: Addr) {
    IsOpen(s, a) && s.sess[a].pairing.permission == ADMIN
  }

  // ---- Pairing handlers ----

  /** Pair-setup is refused once paired or while another address has a session. */
  predicate SetupRefused(s: State, a: Addr) {
    s.st != map[] || exists b :: b in s.sess && b != a
  }

  function AddPairing(
      w: World, st: map<Name, Pairing>, name: Name, key: seq<byte>, permission: byte): map<Name, Pairing>
  {
    if name !in st then Saved(w.utf8, st, Pairing(name, key, permission))
    else if st[name].publicKey != key then st
    else Saved(w.utf8, st, st[name].(permission := permission))
  }

  function CloseAll(conns: map<Addr, Link>): map<Addr, Link> {
    map a | a in conns :: if conns[a] == Live then Closing else conns[a]
  }

  predicate Belongs(sess: map<Addr, Session>, a: Addr, name: Name) {
    a in sess && sess[a].Open? && sess[a].pairing.name == name
  }

  function CloseOf(conns: map<Addr, Link>, sess: map<Addr, Session>, name: Name): map<Addr, Link> {
    map a | a in conns :: if conns[a] == Live && Belongs(sess, a, name) then Closing else conns[a]
  }

  /** Deletes the record's own name, everything if no admin is left, and closes,
      unless the store reports that there is no such record. */
  function DeletePairing(w: World, s: State, name: Name): State
    requires name in s.st
  {
    var p := s.st[name];
    var st := s.st - {p.name};
    if w.strict && p.name !in s.st then s
    else if HasAdmin(st) then s.(st := st, conns := CloseOf(s.conns, s.sess, p.name))
    else s.(st := AllDeleted(st), conns := CloseOf(CloseAll(s.conns), s.sess, p.name))
  }

  // ---- Write handlers ----

  /** A time to live in milliseconds added to a clock in nanoseconds, as int64. */
  function Deadline(ttl: nat, now: int): int {
    now + Schedule.Wrap(ttl * 1000000)
  }

  datatype PutResult = PutResult(vals: map<Id, C.Val>, aborted: bool)

  predicate IsTimed(w: World, id: Id) {
    id in w.chars && C.TimedWrite in w.chars[id].permissions
  }

  predicate InTime(timed: TimedWrite, pid: nat, now: int) {
    now <= timed.deadline && pid == timed.pid
  }

  /** Local writes one after the other, until one panics. */
  function LocalAll(w: World, vals: map<Id, C.Val>, ls: seq<LocalWrite>): PutResult
    decreases |ls|
  {
    if ls == [] then PutResult(vals, false)
    else
      var l := ls[0];
      if l.id !in w.chars || l.id !in vals then LocalAll(w, vals, ls[1..])
      else
        var o := C.Requested(w.chars[l.id], vals[l.id], l.value, C.Local);
        if o.Panic? then PutResult(vals, true) else LocalAll(w, vals[l.id := o.value], ls[1..])
  }

  /** The entry names a characteristic that there is, and if that takes timed writes
      it is in time and has the prepared transaction. */
  predicate LetThrough(w: World, timed: Option<TimedWrite>, pid: nat, i: Item) {
    i.id in w.chars && (IsTimed(w, i.id) ==> timed.Some? && InTime(timed.value, pid, i.now))
  }

  /** What the handler of an entry leaves behind. */
  function Handled(w: World, vals: map<Id, C.Val>, i: Item): PutResult
    requires i.id in w.chars && i.id in vals && i.value.Some?
  {
    if C.CallsHandler(w.chars[i.id], vals[i.id], i.value.value, C.Remote(i.answer)) then LocalAll(w, vals, i.during)
    else PutResult(vals, false)
  }

  /** The handler runs between reading the old value and storing the new one. */
  function WriteItem(w: World, vals: map<Id, C.Val>, i: Item): PutResult
    requires i.id in w.chars && i.id in vals && i.value.Some?
  {
    var h := Handled(w, vals, i);
    if h.aborted then h
    else
      var o := C.Requested(w.chars[i.id], vals[i.id], i.value.value, C.Remote(i.answer));
      if o.Panic? then PutResult(h.vals, true)
      else if !o.notified then h
      else LocalAll(w, h.vals[i.id := o.value], i.after)
  }

  function PutItem(w: World, vals: map<Id, C.Val>, timed: Option<TimedWrite>, pid: nat, i: Item): PutResult {
    if i.id !in w.chars || i.id !in vals then PutResult(vals, false)
    else if IsTimed(w, i.id) && timed.None? then PutResult(vals, true)
    else if !LetThrough(w, timed, pid, i) || i.value.None? then PutResult(vals, false)
    else WriteItem(w, vals, i)
  }

  function PutAll(w: World, vals: map<Id, C.Val>, timed: Option<TimedWrite>, pid: nat, writes: seq<Item>): PutResult
    decreases |writes|
  {
    if writes == [] then PutResult(vals, false)
    else
      var r := PutItem(w, vals, timed, pid, writes[0]);
      if r.aborted then r else PutAll(w, r.vals, timed, pid, writes[1..])
  }

  /** A handler that aborts loses its connection and skips what comes after. */
  function PutRequest(w: World, s: State, a: Addr, pid: nat, writes: seq<Item>): State
    requires IsOpen(s, a)
  {
    var r := PutAll(w, s.vals, s.sess[a].timed, pid, writes);
    if r.aborted then s.(vals := r.vals, conns := s.conns[a := Closing])
    else s.(vals := r.vals, sess := s.sess[a := s.sess[a].(timed := None)])
  }

  // ---- Steps and runs ----

  predicate Verifies(w: World, s: State, a: Addr, name: Name, proof: seq<byte>) {
    && a in s.sess && s.sess[a].Verifying?
    && name in s.st
    && w.genuine(s.sess[a].keys, s.st[name].publicKey, name, proof)
  }

  /** A final message of pair-setup or pair-verify that is too short to hold a tag
      makes its handler panic, if it gets that far. */
  predicate Panics(s: State, a: Addr, setup: bool) {
    a in s.sess && if setup then s.sess[a].Setup? && !SetupRefused(s, a) else s.sess[a].Verifying?
  }

  function Step(w: World, s: State, e: Event): State
    requires Can(s, e)
  {
    match e
    case Accept(a) => s.(conns := s.conns[a := Live])
    case Drop(a) => s.(conns := s.conns[a := Closed], sess := s.sess - {a})
    case SetupStart(a) => if SetupRefused(s, a) then s else s.(sess := s.sess[a := Setup])
    case SetupSave(a, name, key) =>
      if SetupRefused(s, a) || a !in s.sess || !s.sess[a].Setup? then s
      else s.(st := Saved(w.utf8, s.st, Pairing(name, key, ADMIN)))
    case VerifyStart(a, keys) => s.(sess := s.sess[a := Verifying(keys)])
    case VerifyFinish(a, name, proof) =>
      if Verifies(w, s, a, name, proof) then s.(sess := s.sess[a := Open(s.st[name], None)]) else s
    case TooShort(a, setup) =>
      if Panics(s, a, setup) then s.(conns := s.conns[a := Closing]) else s
    case Add(a, name, key, permission) =>
      if IsAdmin(s, a) then s.(st := AddPairing(w, s.st, name, key, permission)) else s
    case Delete(a, name) =>
      if IsAdmin(s, a) && name in s.st then DeletePairing(w, s, name) else s
    case Prepare(a, ttl, pid, now) =>
      if IsOpen(s, a) && ttl != 0 && pid != 0 then
        s.(sess := s.sess[a := s.sess[a].(timed := Some(TimedWrite(Deadline(ttl, now), pid)))])
      else s
    case Put(a, pid, writes) =>
      if IsOpen(s, a) then PutRequest(w, s, a, pid, writes) else s
    case Local(l) => s.(vals := LocalAll(w, s.vals, [l]).vals)
  }

  /** An event that cannot happen changes nothing. */
  function Apply(w: World, s: State, e: Event): State {
    if Can(s, e) then Step(w, s, e) else s
  }

  function After(w: World, s: State, events: seq<Event>): State
    decreases |events|
  {
    if events == [] then s
    else
      var n := |events| - 1;
      Apply(w, After(w, s, events[..n]), events[n])
  }

  /** A server that was just started over a store. */
  function Started(st: map<Name, Pairing>, vals: map<Id, C.Val>): State {
    State(st, map[], map[], vals)
  }

  lemma {:induction false} Earlier(events: seq<Event>, n: nat, k: nat)
    requires k <= n <= |events|
    ensures events[..n][..k] == events[..k]
  {
  }

  /** The state after `n` events is one step behind the state after `n - 1`. */
  lemma {:induction false} LastStep(w: World, s: State, events: seq<Event>, n: nat)
    requires 0 < n <= |events|
    ensures After(w, s, events[..n]) == Apply(w, After(w, s, events[..n - 1]), events[n - 1])
  {
    Earlier(events, n, n - 1);
    assert events[..n][n - 1] == events[n - 1];
  }

  lemma {:induction false} NoEvents(w: World, s: State, events: seq<Event>)
    ensures After(w, s, events[..0]) == s && After(w, s, []) == s
  {
  }
}
