/** The encrypted record layer of a verified session (section 6.5.2 of the HAP
    specification): frames of at most 1024 bytes, sealed under a counter nonce. */
module RecordLayer {
  import opened Bytes
  import opened Options

  const PACKET_LENGTH_MAX := 0x400
  const MAC_LENGTH := 16
  const COUNTER_LIMIT := 0x1_0000_0000_0000_0000

  type Key = seq<byte>
  type Counter = c: int | 0 <= c < COUNTER_LIMIT

  // ---- The AEAD, uninterpreted ----

  datatype Sealed = Sealed(text: seq<byte>, mac: seq<byte>)

  /** `seal(key, nonce, plain, ad)` and `open(key, nonce, sealed, ad)`. */
  datatype Aead = Aead(
    seal: (Key, seq<byte>, seq<byte>, seq<byte>) -> Sealed,
    open: (Key, seq<byte>, Sealed, seq<byte>) -> Option<seq<byte>>)

  /** What section 2.8 of RFC 8439 promises of a sealed text: its length, the
      length of its tag, and that opening it returns the plaintext. */
  ghost predicate Correct(a: Aead) {
    forall k, n, p, ad ::
      var s := a.seal(k, n, p, ad);
      |s.text| == |p| && |s.mac| == MAC_LENGTH && a.open(k, n, s, ad) == Some(p)
  }

  /** Some AEAD is correct, so the theorems below speak about something. */
  lemma {:induction false} SomeAeadIsCorrect()
    ensures exists a :: Correct(a)
  {
    var mac: seq<byte> := seq(MAC_LENGTH, _ => 0);
    var a := Aead((k, n, p, ad) => Sealed(p, mac), (k, n, s: Sealed, ad) => Some(s.text));
    assert Correct(a);
  }

  // ---- Packets ----

  function Packets(msg: seq<byte>, size: nat): seq<seq<byte>>
    requires size > 0
  {
    if msg == [] then []
    else if |msg| <= size then [msg]
    else [msg[..size]] + Packets(msg[size..], size)
  }

  lemma {:induction false} DivideStep(n: nat, d: nat)
    requires d > 0
    ensures (n + d) / d == n / d + 1 && (n + d) % d == n % d
  {
    assert n == d * (n / d) + n % d;
    assert d * (n / d + 1) == d * (n / d) + d;
    DivisionUnique(n + d, d, n / d + 1, n % d);
  }

  lemma {:induction false} PacketsCover(msg: seq<byte>, size: nat)
    requires size > 0
    ensures Concat(Packets(msg, size)) == msg
    ensures forall p :: p in Packets(msg, size) ==> 0 < |p| <= size
    decreases |msg|
  {
    var ps := Packets(msg, size);
    if 0 < |msg| <= size {
      assert Concat([msg]) == msg + Concat([]);
    } else if msg != [] {
      PacketsCover(msg[size..], size);
      assert ps[1..] == Packets(msg[size..], size);
      assert msg == msg[..size] + msg[size..];
    }
  }

  lemma {:induction false} PacketsCount(msg: seq<byte>, size: nat)
    requires size > 0
    ensures |Packets(msg, size)| == (|msg| + size - 1) / size
    decreases |msg|
  {
    if msg == [] {
      DivisionUnique(size - 1, size, 0, size - 1);
    } else if |msg| <= size {
      DivisionUnique(|msg| + size - 1, size, 1, |msg| - 1);
    } else {
      PacketsCount(msg[size..], size);
      DivideStep(|msg[size..]| + size - 1, size);
    }
  }

  lemma {:induction false} PacketsFull(msg: seq<byte>, size: nat)
    requires size > 0 && msg != []
    ensures var ps := Packets(msg, size);
            && |ps| > 0
            && (forall i :: 0 <= i < |ps| - 1 ==> |ps[i]| == size)
            && (|ps[|ps| - 1]| == size <==> |msg| % size == 0)
    decreases |msg|
  {
    if |msg| < size {
      DivisionUnique(|msg|, size, 0, |msg|);
    } else if |msg| == size {
      DivisionUnique(size, size, 1, 0);
    } else {
      var ps, qs := Packets(msg, size), Packets(msg[size..], size);
      PacketsFull(msg[size..], size);
      DivideStep(|msg[size..]|, size);
      assert ps == [msg[..size]] + qs;
    }
  }

  /** ceil(n / size) packets, all but the last full, none empty, together the input. */
  lemma {:induction false} PacketsSplit(msg: seq<byte>, size: nat)
    requires size > 0
    ensures var ps := Packets(msg, size);
            && Concat(ps) == msg
            && |ps| == (|msg| + size - 1) / size
            && (forall i :: 0 <= i < |ps| ==> 0 < |ps[i]| <= size && (i < |ps| - 1 ==> |ps[i]| == size))
            && (msg != [] ==> |ps| > 0 && (|ps[|ps| - 1]| == size <==> |msg| % size == 0))
  {
    PacketsCover(msg, size);
    PacketsCount(msg, size);
    if msg != [] {
      PacketsFull(msg, size);
    }
  }

  // ---- Sealing ----

  function Next(c: Counter): Counter {
    if c + 1 == COUNTER_LIMIT then 0 else c + 1
  }

  function Advance(c: Counter, n: nat): Counter
    decreases n
  {
    if n == 0 then c else Advance(Next(c), n - 1)
  }

  lemma {:induction false} AdvanceIsSum(c: Counter, n: nat)
    ensures Advance(c, n) == (c + n) % 0x1_0000_0000_0000_0000
    decreases n
  {
    if n > 0 {
      AdvanceIsSum(Next(c), n - 1);
    }
  }

  function Nonce(c: Counter): seq<byte> {
    LittleEndian(c, 8)
  }

  function Frame(a: Aead, k: Key, c: Counter, p: seq<byte>): seq<byte> {
    var length := LittleEndian(|p|, 2);
    var s := a.seal(k, Nonce(c), p, length);
    length + s.text + s.mac
  }

  function SealPackets(a: Aead, k: Key, c: Counter, ps: seq<seq<byte>>): seq<byte>
    decreases |ps|
  {
    if ps == [] then [] else Frame(a, k, c, ps[0]) + SealPackets(a, k, Next(c), ps[1..])
  }

  function Encrypted(a: Aead, k: Key, c: Counter, msg: seq<byte>): seq<byte> {
    SealPackets(a, k, c, Packets(msg, PACKET_LENGTH_MAX))
  }

  function FrameCount(msg: seq<byte>): nat {
    |Packets(msg, PACKET_LENGTH_MAX)|
  }

  // ---- Opening ----

  datatype Opened = Opened(plain: seq<byte>, rest: seq<byte>, count: Counter) | Broken(count: Counter)

  function Glue(p: seq<byte>, o: Opened): Opened {
    if o.Opened? then o.(plain := p + o.plain) else o
  }

  /** One call of `Decrypt`: frames are opened until one is shorter than 1024
      bytes, the stream ends, or something fails. */
  function Decrypted(a: Aead, k: Key, c: Counter, stream: seq<byte>): (o: Opened)
    ensures o.Opened? ==> |o.rest| <= |stream| && (stream != [] ==> |o.rest| < |stream|)
    decreases |stream|
  {
    if stream == [] then Opened([], [], c)
    else if |stream| < 2 then Broken(c)
    else
      var length := FromLittleEndian(stream[..2]);
      if |stream| < 2 + length + MAC_LENGTH then Broken(c)
      else
        var s := Sealed(stream[2..2 + length], stream[2 + length..2 + length + MAC_LENGTH]);
        var rest := stream[2 + length + MAC_LENGTH..];
        match a.open(k, Nonce(c), s, LittleEndian(length, 2))
        case None => Broken(Next(c))
        case Some(p) =>
          if length < PACKET_LENGTH_MAX then Opened(p, rest, Next(c))
          else Glue(p, Decrypted(a, k, Next(c), rest))
  }

  // ---- One message ----

  lemma {:induction false} OpenFrame(a: Aead, k: Key, c: Counter, p: seq<byte>, tail: seq<byte>)
    requires Correct(a) && |p| <= PACKET_LENGTH_MAX
    ensures Decrypted(a, k, c, Frame(a, k, c, p) + tail) ==
            if |p| < PACKET_LENGTH_MAX then Opened(p, tail, Next(c))
            else Glue(p, Decrypted(a, k, Next(c), tail))
  {
    var length := LittleEndian(|p|, 2);
    var s := a.seal(k, Nonce(c), p, length);
    assert |s.text| == |p| && |s.mac| == MAC_LENGTH && a.open(k, Nonce(c), s, length) == Some(p);
    var stream := Frame(a, k, c, p) + tail;
    assert Pow256(2) == 256 * (256 * Pow256(0));
    LittleEndianRoundTrip(|p|, 2);
    assert stream[..2] == length;
    assert stream[2..2 + |p|] == s.text;
    assert stream[2 + |p|..2 + |p| + MAC_LENGTH] == s.mac;
    assert stream[2 + |p| + MAC_LENGTH..] == tail;
  }

  /** Eight bytes that spell a counter, low byte first, are the nonce of its frame. */
  lemma {:induction false} NonceSpells(c: Counter, n: seq<byte>)
    requires |n| == 8
    ensures n == Nonce(c) <==> FromLittleEndian(n) == c
  {
    Limit();
    LittleEndianRoundTrip(c, 8);
    FromLittleEndianInjective(n, Nonce(c));
  }

  lemma {:induction false} FrameBytes(a: Aead, k: Key, c: Counter, p: seq<byte>, n: seq<byte>)
    requires |p| <= 1024 && |n| == 8 && FromLittleEndian(n) == c
    ensures var length := [|p| % 256, |p| / 256];
            var s := a.seal(k, n, p, length);
            Frame(a, k, c, p) == length + s.text + s.mac
  {
    hide FromLittleEndian, Nonce;
    NonceSpells(c, n);
    TwoBytes(|p|);
    hide LittleEndian;
  }

  /** A frame is the length in two bytes, low byte first, then the text and the tag that
      sealing gives under the counter in eight bytes, with the length authenticated: 18
      bytes more than its plaintext. */
  lemma {:induction false} FrameLayout(a: Aead, k: Key, c: Counter, p: seq<byte>, n: seq<byte>)
    requires Correct(a) && |p| <= 1024 && |n| == 8 && FromLittleEndian(n) == c
    ensures var length := [|p| % 256, |p| / 256];
            var s := a.seal(k, n, p, length);
            && Frame(a, k, c, p) == length + s.text + s.mac
            && |Frame(a, k, c, p)| == |p| + 18
            && a.open(k, n, s, length) == Some(p)
  {
    hide Frame;
    FrameBytes(a, k, c, p, n);
  }

  lemma {:induction false} TwoBytes(n: nat)
    requires n < 0x1_0000
    ensures LittleEndian(n, 2) == [n % 256, n / 256]
  {
    assert LittleEndian(n, 2) == [n % 256] + LittleEndian(n / 256, 1);
    assert LittleEndian(n / 256, 1) == [n / 256 % 256] + [];
  }

  lemma {:induction false} AdvanceTwice(c: Counter, m: nat, n: nat)
    ensures Advance(Advance(c, m), n) == Advance(c, m + n)
    decreases m
  {
    if m > 0 {
      AdvanceTwice(Next(c), m - 1, n);
    }
  }

  lemma {:induction false} GlueTwice(p: seq<byte>, q: seq<byte>, o: Opened)
    ensures Glue(p, Glue(q, o)) == Glue(p + q, o)
  {
    if o.Opened? {
      assert p + (q + o.plain) == (p + q) + o.plain;
    }
  }

  /** What a call makes of `stream` behind a full frame holding `p`. */
  lemma {:induction false} OpenFull(a: Aead, k: Key, c: Counter, p: seq<byte>, ps: seq<seq<byte>>, tail: seq<byte>)
    requires Correct(a) && |p| == PACKET_LENGTH_MAX
    ensures Decrypted(a, k, c, SealPackets(a, k, c, [p] + ps) + tail) ==
            Glue(p, Decrypted(a, k, Next(c), SealPackets(a, k, Next(c), ps) + tail))
  {
    var frame, sealed := Frame(a, k, c, p), SealPackets(a, k, Next(c), ps);
    Associate(frame, sealed, tail);
    OpenFrame(a, k, c, p, sealed + tail);
  }

  /** After any number of full frames what remains was sealed with exactly the
      counter that the receiver has reached. */
  lemma {:induction false} FrameBoundary(
      a: Aead, k: Key, c: Counter, full: seq<seq<byte>>, ps: seq<seq<byte>>, tail: seq<byte>)
    requires Correct(a)
    requires forall i :: 0 <= i < |full| ==> |full[i]| == PACKET_LENGTH_MAX
    ensures Decrypted(a, k, c, SealPackets(a, k, c, full + ps) + tail) ==
            Glue(Concat(full),
                 Decrypted(a, k, Advance(c, |full|), SealPackets(a, k, Advance(c, |full|), ps) + tail))
    decreases |full|
  {
    if full == [] {
      assert full + ps == ps;
      GlueEmpty(Decrypted(a, k, c, SealPackets(a, k, c, ps) + tail));
    } else {
      var p, rest := full[0], full[1..];
      assert full + ps == [p] + (rest + ps);
      OpenFull(a, k, c, p, rest + ps, tail);
      FrameBoundary(a, k, Next(c), rest, ps, tail);
      var c' := Advance(c, |full|);
      GlueTwice(p, Concat(rest), Decrypted(a, k, c', SealPackets(a, k, c', ps) + tail));
    }
  }

  lemma {:induction false} GlueEmpty(o: Opened)
    ensures Glue([], o) == o
  {
    if o.Opened? {
      assert [] + o.plain == o.plain;
    }
  }

  /** A call of `Decrypt` that starts at a message's first frame ends exactly at
      the message's end when its length is no multiple of 1024, whatever follows;
      otherwise it runs on into what follows. */
  lemma {:induction false} MessageDecrypts(a: Aead, k: Key, c: Counter, msg: seq<byte>, tail: seq<byte>)
    requires Correct(a)
    ensures var c' := Advance(c, FrameCount(msg));
            Decrypted(a, k, c, Encrypted(a, k, c, msg) + tail) ==
            if |msg| % PACKET_LENGTH_MAX != 0 then Opened(msg, tail, c')
            else Glue(msg, Decrypted(a, k, c', tail))
  {
    hide Decrypted, Frame, Correct;
    var ps := Packets(msg, PACKET_LENGTH_MAX);
    PacketsSplit(msg, PACKET_LENGTH_MAX);
    if |msg| % PACKET_LENGTH_MAX == 0 {
      FrameBoundary(a, k, c, ps, [], tail);
      assert ps + [] == ps && [] + tail == tail;
    } else {
      var n := |ps| - 1;
      var full, last := ps[..n], ps[n];
      var c1 := Advance(c, n);
      assert ps == full + [last];
      FrameBoundary(a, k, c, full, [last], tail);
      assert SealPackets(a, k, c1, [last]) == Frame(a, k, c1, last);
      OpenFrame(a, k, c1, last, tail);
      AdvanceTwice(c, n, 1);
      ConcatAppend(full, [last]);
      assert Concat([last]) == last;
    }
  }

  /** The message boundary survives if and only if the length is no multiple of
      1024 or nothing follows. */
  lemma {:induction false} BoundaryKept(a: Aead, k: Key, c: Counter, msg: seq<byte>, tail: seq<byte>)
    requires Correct(a)
    ensures Decrypted(a, k, c, Encrypted(a, k, c, msg) + tail) == Opened(msg, tail, Advance(c, FrameCount(msg)))
            <==> |msg| % PACKET_LENGTH_MAX != 0 || tail == []
  {
    MessageDecrypts(a, k, c, msg, tail);
    if tail == [] {
      assert msg + [] == msg;
    }
  }

  // ---- A whole conversation ----

  /** Everything one session sends for a list of messages. */
  function Sent(a: Aead, k: Key, c: Counter, msgs: seq<seq<byte>>): seq<byte>
    decreases |msgs|
  {
    if msgs == [] then []
    else Encrypted(a, k, c, msgs[0]) + Sent(a, k, Advance(c, FrameCount(msgs[0])), msgs[1..])
  }

  function TotalFrames(msgs: seq<seq<byte>>): nat {
    if msgs == [] then 0 else FrameCount(msgs[0]) + TotalFrames(msgs[1..])
  }

  datatype Grouping = Grouping(first: seq<seq<byte>>, rest: seq<seq<byte>>)

  /** The messages that one `Decrypt` call covers, up to the first whose length is
      no multiple of 1024, and the ones left for later calls. */
  function Group(msgs: seq<seq<byte>>): (g: Grouping)
    ensures g.first + g.rest == msgs && (msgs != [] ==> |g.rest| < |msgs|)
  {
    if msgs == [] then Grouping([], [])
    else if |msgs[0]| % PACKET_LENGTH_MAX != 0 then Grouping([msgs[0]], msgs[1..])
    else
      var g := Group(msgs[1..]);
      Grouping([msgs[0]] + g.first, g.rest)
  }

  lemma {:induction false} ConsMessage(m: seq<byte>, msgs: seq<seq<byte>>)
    ensures Concat([m] + msgs) == m + Concat(msgs)
    ensures TotalFrames([m] + msgs) == FrameCount(m) + TotalFrames(msgs)
  {
    assert ([m] + msgs)[1..] == msgs;
  }

  lemma {:induction false} NothingSent(a: Aead, k: Key, c: Counter)
    ensures var c' := Advance(c, TotalFrames([]));
            Decrypted(a, k, c, Sent(a, k, c, [])) == Opened(Concat([]), Sent(a, k, c', []), c')
  {
  }

  lemma {:induction false} GroupEnds(a: Aead, k: Key, c: Counter, msgs: seq<seq<byte>>)
    requires Correct(a) && msgs != [] && |msgs[0]| % PACKET_LENGTH_MAX != 0
    ensures var c' := Advance(c, TotalFrames([msgs[0]]));
            Decrypted(a, k, c, Sent(a, k, c, msgs)) == Opened(Concat([msgs[0]]), Sent(a, k, c', msgs[1..]), c')
  {
    hide Decrypted, Encrypted, Correct;
    var m := msgs[0];
    MessageDecrypts(a, k, c, m, Sent(a, k, Advance(c, FrameCount(m)), msgs[1..]));
    ConsMessage(m, []);
    assert [m] + [] == [m] && m + [] == m;
  }

  lemma {:induction false} GroupGoesOn(a: Aead, k: Key, c: Counter, msgs: seq<seq<byte>>, o: Opened)
    requires Correct(a) && msgs != [] && |msgs[0]| % PACKET_LENGTH_MAX == 0
    requires var c1 := Advance(c, FrameCount(msgs[0]));
             Decrypted(a, k, c1, Sent(a, k, c1, msgs[1..])) == o
    ensures Decrypted(a, k, c, Sent(a, k, c, msgs)) == Glue(msgs[0], o)
  {
    hide Decrypted, Encrypted, Correct;
    MessageDecrypts(a, k, c, msgs[0], Sent(a, k, Advance(c, FrameCount(msgs[0])), msgs[1..]));
  }

  /** One `Decrypt` call on what a session sent opens exactly one group. */
  lemma {:induction false} CallDecryptsGroup(a: Aead, k: Key, c: Counter, msgs: seq<seq<byte>>)
    requires Correct(a)
    ensures var g := Group(msgs);
            var c' := Advance(c, TotalFrames(g.first));
            Decrypted(a, k, c, Sent(a, k, c, msgs)) == Opened(Concat(g.first), Sent(a, k, c', g.rest), c')
    decreases |msgs|
  {
    hide Decrypted, Encrypted, Correct, Concat, TotalFrames, FrameCount, Advance, Sent;
    if msgs == [] {
      NothingSent(a, k, c);
    } else if |msgs[0]| % PACKET_LENGTH_MAX != 0 {
      GroupEnds(a, k, c, msgs);
    } else {
      var g := Group(msgs[1..]);
      var c1 := Advance(c, FrameCount(msgs[0]));
      var c' := Advance(c1, TotalFrames(g.first));
      CallDecryptsGroup(a, k, c1, msgs[1..]);
      GroupGoesOn(a, k, c, msgs, Opened(Concat(g.first), Sent(a, k, c', g.rest), c'));
      ConsMessage(msgs[0], g.first);
      AdvanceTwice(c, FrameCount(msgs[0]), TotalFrames(g.first));
    }
  }

  datatype Received = Received(plains: seq<seq<byte>>, count: Counter, intact: bool)

  /** Repeated `Decrypt` calls until the stream is used up. */
  function DecryptedAll(a: Aead, k: Key, c: Counter, stream: seq<byte>): Received
    decreases |stream|
  {
    if stream == [] then Received([], c, true)
    else
      match Decrypted(a, k, c, stream)
      case Broken(c') => Received([], c', false)
      case Opened(p, rest, c') =>
        var r := DecryptedAll(a, k, c', rest);
        r.(plains := [p] + r.plains)
  }

  lemma {:induction false} SealedLength(a: Aead, k: Key, c: Counter, ps: seq<seq<byte>>)
    ensures |SealPackets(a, k, c, ps)| >= 2 * |ps|
    decreases |ps|
  {
    if ps != [] {
      SealedLength(a, k, Next(c), ps[1..]);
    }
  }

  lemma {:induction false} SentEmpty(a: Aead, k: Key, c: Counter, msgs: seq<seq<byte>>)
    requires Sent(a, k, c, msgs) == []
    ensures Concat(msgs) == [] && TotalFrames(msgs) == 0
    decreases |msgs|
  {
    if msgs != [] {
      SealedLength(a, k, c, Packets(msgs[0], PACKET_LENGTH_MAX));
      PacketsSplit(msgs[0], PACKET_LENGTH_MAX);
      SentEmpty(a, k, Advance(c, FrameCount(msgs[0])), msgs[1..]);
    }
  }

  lemma {:induction false} TotalFramesAppend(xs: seq<seq<byte>>, ys: seq<seq<byte>>)
    ensures TotalFrames(xs + ys) == TotalFrames(xs) + TotalFrames(ys)
  {
    if xs == [] {
      assert xs + ys == ys;
    } else {
      assert (xs + ys)[1..] == xs[1..] + ys;
      TotalFramesAppend(xs[1..], ys);
    }
  }

  /** The first of the calls takes one group off the stream. */
  lemma {:induction false} FirstCall(a: Aead, k: Key, c: Counter, msgs: seq<seq<byte>>)
    requires Correct(a) && Sent(a, k, c, msgs) != []
    ensures var g := Group(msgs);
            var c' := Advance(c, TotalFrames(g.first));
            var r := DecryptedAll(a, k, c, Sent(a, k, c, msgs));
            var r' := DecryptedAll(a, k, c', Sent(a, k, c', g.rest));
            Concat(r.plains) == Concat(g.first) + Concat(r'.plains) && r.count == r'.count && r.intact == r'.intact
  {
    var g := Group(msgs);
    var c' := Advance(c, TotalFrames(g.first));
    CallDecryptsGroup(a, k, c, msgs);
  }

  lemma {:induction false} GroupTotals(c: Counter, msgs: seq<seq<byte>>)
    ensures var g := Group(msgs);
            && Concat(msgs) == Concat(g.first) + Concat(g.rest)
            && Advance(Advance(c, TotalFrames(g.first)), TotalFrames(g.rest)) == Advance(c, TotalFrames(msgs))
  {
    var g := Group(msgs);
    ConcatAppend(g.first, g.rest);
    TotalFramesAppend(g.first, g.rest);
    AdvanceTwice(c, TotalFrames(g.first), TotalFrames(g.rest));
  }

  /** For any messages sealed by one session, repeated `Decrypt` calls by a peer
      with the same key and counter never fail, return plaintexts that join to the
      joined messages, and end with the sender's counter. */
  lemma {:induction false} ConversationDecrypts(a: Aead, k: Key, c: Counter, msgs: seq<seq<byte>>)
    requires Correct(a)
    ensures var r := DecryptedAll(a, k, c, Sent(a, k, c, msgs));
            && r.intact
            && Concat(r.plains) == Concat(msgs)
            && r.count == Advance(c, TotalFrames(msgs))
    decreases |msgs|
  {
    if Sent(a, k, c, msgs) == [] {
      SentEmpty(a, k, c, msgs);
    } else {
      var g := Group(msgs);
      FirstCall(a, k, c, msgs);
      ConversationDecrypts(a, k, Advance(c, TotalFrames(g.first)), g.rest);
      GroupTotals(c, msgs);
    }
  }

  // ---- Nonces ----

  lemma {:induction false} SealAppend(a: Aead, k: Key, c: Counter, xs: seq<seq<byte>>, ys: seq<seq<byte>>)
    ensures SealPackets(a, k, c, xs + ys)
            == SealPackets(a, k, c, xs) + SealPackets(a, k, Advance(c, |xs|), ys)
    decreases |xs|
  {
    if xs == [] {
      assert xs + ys == ys;
    } else {
      var p, rest := xs[0], xs[1..];
      assert xs + ys == [p] + (rest + ys);
      SealAppend(a, k, Next(c), rest, ys);
      Associate(Frame(a, k, c, p), SealPackets(a, k, Next(c), rest), SealPackets(a, k, Advance(c, |xs|), ys));
    }
  }

  /** The frames of a run use the counters c, c + 1, ... in order. */
  lemma {:induction false} FrameAt(a: Aead, k: Key, c: Counter, ps: seq<seq<byte>>, j: nat)
    requires j < |ps|
    ensures SealPackets(a, k, c, ps) ==
            SealPackets(a, k, c, ps[..j])
            + (Frame(a, k, Advance(c, j), ps[j]) + SealPackets(a, k, Advance(c, j + 1), ps[j + 1..]))
  {
    assert ps == ps[..j] + ps[j..];
    SealAppend(a, k, c, ps[..j], ps[j..]);
    assert ps[j..] == [ps[j]] + ps[j + 1..];
    AdvanceTwice(c, j, 1);
  }

  lemma {:induction false} NonceInjective(x: Counter, y: Counter)
    ensures Nonce(x) == Nonce(y) <==> x == y
  {
    NonceSpells(x, Nonce(y));
    NonceSpells(y, Nonce(y));
  }

  /** Two frames of a key use the same nonce only 2^64 frames apart. */
  lemma {:induction false} NonceReuse(c: Counter, i: nat, j: nat)
    requires i <= j
    ensures Nonce(Advance(c, i)) == Nonce(Advance(c, j)) <==> (j - i) % COUNTER_LIMIT == 0
  {
    hide Nonce;
    AdvanceIsSum(c, i);
    AdvanceIsSum(c, j);
    NonceInjective(Advance(c, i), Advance(c, j));
    CongruentIff(c + i, c + j, COUNTER_LIMIT);
    assert (c + j) - (c + i) == j - i;
  }

  lemma {:induction false} CongruentIff(m: nat, n: nat, d: nat)
    requires d > 0 && m <= n
    ensures m % d == n % d <==> (n - m) % d == 0
  {
    var p, q := m / d, n / d;
    var k := (n - m) / d;
    if m % d == n % d {
      assert n - m == d * q - d * p == d * (q - p);
      DivisionUnique(n - m, d, q - p, 0);
    }
    if (n - m) % d == 0 {
      assert n == d * k + m == d * k + (d * p + m % d);
      assert d * k + d * p == d * (k + p);
      DivisionUnique(n, d, k + p, m % d);
    }
  }

  lemma {:induction false} Limit()
    ensures Pow256(8) == COUNTER_LIMIT
  {
    assert Pow256(4) == 256 * (256 * Pow256(2));
    assert Pow256(6) == 256 * (256 * Pow256(4));
    assert Pow256(8) == 256 * (256 * Pow256(6));
  }

  /** Over up to 2^64 frames no nonce is used twice. */
  lemma {:induction false} NoncesDistinct(c: Counter, frames: nat)
    requires frames <= COUNTER_LIMIT
    ensures forall i, j :: 0 <= i < j < frames ==> Nonce(Advance(c, i)) != Nonce(Advance(c, j))
  {
    forall i, j | 0 <= i < j < frames
      ensures Nonce(Advance(c, i)) != Nonce(Advance(c, j))
    {
      NonceReuse(c, i, j);
      DivisionUnique(j - i, COUNTER_LIMIT, 0, j - i);
    }
  }

  function AllPackets(msgs: seq<seq<byte>>): seq<seq<byte>> {
    if msgs == [] then [] else Packets(msgs[0], PACKET_LENGTH_MAX) + AllPackets(msgs[1..])
  }

  lemma {:induction false} SentIsSealed(a: Aead, k: Key, c: Counter, msgs: seq<seq<byte>>)
    ensures Sent(a, k, c, msgs) == SealPackets(a, k, c, AllPackets(msgs))
    ensures |AllPackets(msgs)| == TotalFrames(msgs)
    decreases |msgs|
  {
    hide Frame, Packets;
    if msgs != [] {
      SentIsSealed(a, k, Advance(c, FrameCount(msgs[0])), msgs[1..]);
      SealAppend(a, k, c, Packets(msgs[0], PACKET_LENGTH_MAX), AllPackets(msgs[1..]));
    }
  }

  /** Over any messages of together at most 2^64 frames, frame `j` holds the `j`-th
      packet, sealed under the eight bytes of the `j`-th counter after the first, and no
      earlier frame used these bytes. */
  lemma {:induction false} EveryFrameFresh(a: Aead, k: Key, c: Counter, msgs: seq<seq<byte>>, j: nat, n: seq<byte>)
    requires j < TotalFrames(msgs) <= COUNTER_LIMIT
    requires |n| == 8 && FromLittleEndian(n) == (c + j) % 0x1_0000_0000_0000_0000
    ensures var ps := AllPackets(msgs);
            && |ps| == TotalFrames(msgs) && |ps[j]| <= 1024
            && var length := [|ps[j]| % 256, |ps[j]| / 256];
               var s := a.seal(k, n, ps[j], length);
               Sent(a, k, c, msgs) ==
               SealPackets(a, k, c, ps[..j])
               + (length + s.text + s.mac + SealPackets(a, k, Advance(c, j + 1), ps[j + 1..]))
    ensures forall i :: 0 <= i < j ==> Nonce(Advance(c, i)) != n
  {
    SentIsSealed(a, k, c, msgs);
    PacketsAreShort(msgs);
    AdvanceIsSum(c, j);
    NoncesDistinct(c, TotalFrames(msgs));
    hide Sent, AllPackets, SealPackets, Advance, Frame, Nonce, FromLittleEndian;
    FrameAt(a, k, c, AllPackets(msgs), j);
    NonceSpells(Advance(c, j), n);
    FrameBytes(a, k, Advance(c, j), AllPackets(msgs)[j], n);
  }

  lemma {:induction false} PacketsAreShort(msgs: seq<seq<byte>>)
    ensures forall p :: p in AllPackets(msgs) ==> |p| <= 1024
  {
    if msgs != [] {
      PacketsCover(msgs[0], PACKET_LENGTH_MAX);
      PacketsAreShort(msgs[1..]);
    }
  }

  // ---- Byte for byte ----

  /** What a session writes for a message, frame by frame: nothing for an empty one;
      otherwise the length of the first 1024 bytes in two bytes, low byte first, these
      bytes sealed under the counter in eight bytes, and the same for the rest under the
      next counter. */
  lemma {:induction false} SealedBytes(a: Aead, k: Key, c: Counter, msg: seq<byte>, n: seq<byte>)
    requires |n| == 8 && FromLittleEndian(n) == c
    ensures msg == [] ==> Encrypted(a, k, c, msg) == []
    ensures msg != [] ==>
              var m := if |msg| < 1024 then |msg| else 1024;
              var length := [m % 256, m / 256];
              var s := a.seal(k, n, msg[..m], length);
              Encrypted(a, k, c, msg)
              == (length + s.text + s.mac) + Encrypted(a, k, (c + 1) % 0x1_0000_0000_0000_0000, msg[m..])
  {
    hide Frame, FromLittleEndian, LittleEndian, Packets;
    if msg == [] {
      NoPackets();
    } else {
      FirstPacket(msg);
      var m := if |msg| < 1024 then |msg| else 1024;
      hide SealPackets;
      FrameBytes(a, k, c, msg[..m], n);
    }
  }

  /** A message counts one for each started 1024 bytes. */
  lemma {:induction false} CountedFrames(msg: seq<byte>)
    ensures FrameCount(msg) == (|msg| + 1023) / 1024
  {
    PacketsCount(msg, PACKET_LENGTH_MAX);
  }

  lemma {:induction false} NoPackets()
    ensures Packets([], 1024) == []
  {
  }

  lemma {:induction false} FirstPacket(msg: seq<byte>)
    requires msg != []
    ensures var m := if |msg| < 1024 then |msg| else 1024;
            Packets(msg, 1024) == [msg[..m]] + Packets(msg[m..], 1024)
  {
    var m := if |msg| < 1024 then |msg| else 1024;
    assert |msg| <= 1024 ==> msg[..m] == msg && msg[m..] == [];
  }

  /** What one call makes of any stream, frame by frame: a stream that ends inside a frame
      fails without counting it; a frame that does not open under the counter in eight
      bytes fails and is counted; one shorter than 1024 bytes ends the call, a full one
      goes on under the next counter. */
  lemma {:induction false} OpenedBytes(a: Aead, k: Key, c: Counter, stream: seq<byte>, n: seq<byte>)
    requires |n| == 8 && FromLittleEndian(n) == c
    ensures var o := Decrypted(a, k, c, stream);
            var next := (c + 1) % 0x1_0000_0000_0000_0000;
            if stream == [] then o == Opened([], [], c)
            else if |stream| < 2 then o == Broken(c)
            else
              var m: nat := stream[0] as int + 256 * stream[1] as int;
              if |stream| < m + 18 then o == Broken(c)
              else
                match a.open(k, n, Sealed(stream[2..2 + m], stream[2 + m..18 + m]), stream[..2])
                case None => o == Broken(next)
                case Some(p) =>
                  if m < 1024 then o == Opened(p, stream[18 + m..], next)
                  else
                    match Decrypted(a, k, next, stream[18 + m..])
                    case Opened(q, rest, last) => o == Opened(p + q, rest, last)
                    case Broken(last) => o == Broken(last)
  {
    hide FromLittleEndian, LittleEndian, Nonce;
    NonceSpells(c, n);
    if |stream| >= 2 {
      HeaderSpells(stream);
    }
  }

  lemma {:induction false} HeaderSpells(stream: seq<byte>)
    requires |stream| >= 2
    ensures var m: nat := stream[0] as int + 256 * stream[1] as int;
            FromLittleEndian(stream[..2]) == m && LittleEndian(m, 2) == stream[..2]
  {
    var m: nat := stream[0] as int + 256 * stream[1] as int;
    TwoBytes(m);
    ByteSum(stream[..2]);
    assert stream[..2] == [m % 256, m / 256];
  }

  // ---- The session object ----

  /** A byte stream that is consumed by reading. */
  class Stream {
    var rest: seq<byte>

    constructor (bytes: seq<byte>)
      ensures rest == bytes
    {
      rest := bytes;
    }

    /** Reads up to `n` bytes. */
    method Read(n: nat) returns (b: seq<byte>)
      modifies this
      ensures b + rest == old(rest)
      ensures |b| == if n < |old(rest)| then n else |old(rest)|
      ensures |b| == n ==> b == old(rest)[..n] && rest == old(rest)[n..]
    {
      var k := if n < |rest| then n else |rest|;
      b, rest := rest[..k], rest[k..];
    }
  }

  /** Splits what is left of a stream into packets. */
  method PacketsWithSize(length: nat, r: Stream) returns (packets: seq<seq<byte>>)
    requires length > 0
    modifies r
    ensures packets == Packets(old(r.rest), length)
    ensures r.rest == []
  {
    packets := [];
    while true
      invariant packets + Packets(r.rest, length) == Packets(old(r.rest), length)
      decreases |r.rest|
    {
      ghost var before := r.rest;
      var value := r.Read(length);
      if |value| == 0 {
        break;
      }
      packets := packets + [value];
      if |value| < length {
        assert value == before && r.rest == [];
        break;
      }
      assert before == value + r.rest;
      assert r.rest == [] ==> value == before;
    }
  }

  lemma {:induction false} SealStep(a: Aead, k: Key, c: Counter, ps: seq<seq<byte>>, i: nat, buf: seq<byte>)
    requires i < |ps|
    ensures buf + SealPackets(a, k, c, ps[i..])
            == (buf + Frame(a, k, c, ps[i])) + SealPackets(a, k, Next(c), ps[i + 1..])
  {
    assert ps[i..][1..] == ps[i + 1..];
  }

  lemma {:induction false} OpenTruncated(a: Aead, k: Key, c: Counter, header: seq<byte>, body: seq<byte>)
    requires |header| == 2 && |body| < FromLittleEndian(header) + MAC_LENGTH
    ensures Decrypted(a, k, c, header + body) == Broken(c)
  {
    assert (header + body)[..2] == header;
  }

  lemma {:induction false} Pieces(header: seq<byte>, b: seq<byte>, mac: seq<byte>, rest: seq<byte>)
    requires |header| == 2 && |mac| == MAC_LENGTH
    ensures var stream := header + (b + (mac + rest));
            && |stream| == 2 + |b| + MAC_LENGTH + |rest|
            && stream[..2] == header
            && stream[2..2 + |b|] == b
            && stream[2 + |b|..2 + |b| + MAC_LENGTH] == mac
            && stream[2 + |b| + MAC_LENGTH..] == rest
  {
  }

  lemma {:induction false} OpenWhole(
      a: Aead, k: Key, c: Counter, header: seq<byte>, b: seq<byte>, mac: seq<byte>, rest: seq<byte>)
    requires |header| == 2 && |b| == FromLittleEndian(header) && |mac| == MAC_LENGTH
    ensures Decrypted(a, k, c, header + (b + (mac + rest))) ==
            match a.open(k, Nonce(c), Sealed(b, mac), LittleEndian(|b|, 2))
            case None => Broken(Next(c))
            case Some(p) =>
              if |b| < PACKET_LENGTH_MAX then Opened(p, rest, Next(c))
              else Glue(p, Decrypted(a, k, Next(c), rest))
  {
    hide LittleEndian, FromLittleEndian, Nonce;
    Pieces(header, b, mac, rest);
  }

  class Session {
    const aead: Aead
    const encryptKey: Key
    const decryptKey: Key
    var encryptCount: Counter
    var decryptCount: Counter

    constructor (aead: Aead, encryptKey: Key, decryptKey: Key)
      ensures this.aead == aead && this.encryptKey == encryptKey && this.decryptKey == decryptKey
      ensures encryptCount == 0 && decryptCount == 0
    {
      this.aead, this.encryptKey, this.decryptKey := aead, encryptKey, decryptKey;
      encryptCount, decryptCount := 0, 0;
    }

    method Encrypt(r: Stream) returns (buf: seq<byte>)
      modifies this`encryptCount, r
      ensures buf == Encrypted(aead, encryptKey, old(encryptCount), old(r.rest))
      ensures encryptCount == Advance(old(encryptCount), FrameCount(old(r.rest)))
    {
      var packets := PacketsWithSize(PACKET_LENGTH_MAX, r);
      buf := [];
      var i := 0;
      ghost var all := SealPackets(aead, encryptKey, encryptCount, packets);
      assert packets[0..] == packets;
      while i < |packets|
        invariant 0 <= i <= |packets|
        invariant encryptCount == Advance(old(encryptCount), i)
        invariant buf + SealPackets(aead, encryptKey, encryptCount, packets[i..]) == all
      {
        var p := packets[i];
        SealStep(aead, encryptKey, encryptCount, packets, i, buf);
        AdvanceTwice(old(encryptCount), i, 1);
        var nonce := LittleEndian(encryptCount, 8);
        encryptCount := Next(encryptCount);
        var bLength := LittleEndian(|p|, 2);
        var encrypted := aead.seal(encryptKey, nonce, p, bLength);
        buf := buf + (bLength + encrypted.text + encrypted.mac);
        i := i + 1;
      }
      assert packets[i..] == [];
    }

    /** Opens frames until a short one or the end of the stream; `None` on a
        truncated frame or one that does not verify. */
    method Decrypt(r: Stream) returns (plain: Option<seq<byte>>)
      modifies this`decryptCount, r
      ensures match Decrypted(aead, decryptKey, old(decryptCount), old(r.rest))
              case Opened(p, rest, c) => plain == Some(p) && r.rest == rest && decryptCount == c
              case Broken(c) => plain == None && decryptCount == c
    {
      var buf := [];
      ghost var all := Decrypted(aead, decryptKey, decryptCount, r.rest);
      GlueEmpty(all);
      while r.rest != []
        invariant Glue(buf, Decrypted(aead, decryptKey, decryptCount, r.rest)) == all
        decreases |r.rest|
      {
        ghost var c, sofar := decryptCount, buf;
        var header := r.Read(2);
        if |header| < 2 {
          return None;
        }
        var length := FromLittleEndian(header);
        ghost var body := r.rest;
        var b := r.Read(length);
        if |b| < length {
          OpenTruncated(aead, decryptKey, c, header, body);
          return None;
        }
        var mac := r.Read(MAC_LENGTH);
        if |mac| < MAC_LENGTH {
          OpenTruncated(aead, decryptKey, c, header, body);
          return None;
        }
        OpenWhole(aead, decryptKey, c, header, b, mac, r.rest);
        var nonce := LittleEndian(decryptCount, 8);
        decryptCount := Next(decryptCount);
        var decrypted := aead.open(decryptKey, nonce, Sealed(b, mac), LittleEndian(length, 2));
        if decrypted.None? {
          return None;
        }
        buf := buf + decrypted.value;
        if length < PACKET_LENGTH_MAX {
          return Some(buf);
        }
        GlueTwice(sofar, decrypted.value, Decrypted(aead, decryptKey, decryptCount, r.rest));
      }
      assert buf + [] == buf;
      plain := Some(buf);
    }
  }

  /** The accessory's side of a verified session; `derive` is the key derivation of
      the shared secret for a label, which may fail. */
  method NewSession(aead: Aead, shared: seq<byte>, derive: (seq<byte>, string) -> Option<Key>) returns (s: Session?)
    ensures s == null <==> derive(shared, "Control-Read-Encryption-Key").None?
                           || derive(shared, "Control-Write-Encryption-Key").None?
    ensures s != null ==>
      && fresh(s) && s.aead == aead
      && derive(shared, "Control-Read-Encryption-Key") == Some(s.encryptKey)
      && derive(shared, "Control-Write-Encryption-Key") == Some(s.decryptKey)
      && s.encryptCount == 0 && s.decryptCount == 0
  {
    var encryptKey := derive(shared, "Control-Read-Encryption-Key");
    if encryptKey.None? {
      return null;
    }
    var decryptKey := derive(shared, "Control-Write-Encryption-Key");
    if decryptKey.None? {
      return null;
    }
    s := new Session(aead, encryptKey.value, decryptKey.value);
  }
}
