/** Scalars on the wire, byte by byte: how each is written, and what any bytes under its
    tag are read as. */
module Tlv8Scalars {
  import opened Bytes
  import opened Tlv8Format
  import opened Tlv8Schema
  import opened Tlv8RoundTrip

  // ---- Items ----

  /** A value is written as its tag, its length and its bytes; of a longer one 255 bytes
      are written so, and then the rest. An empty value is not written. */
  lemma {:induction false} ValueBytes(tag: byte, v: seq<byte>)
    ensures var b := Serialize(Fragments(tag, v));
            if v == [] then b == []
            else if |v| <= 255 then b == [tag, |v|] + v
            else b == [tag, 255] + v[..255] + Serialize(Fragments(tag, v[255..]))
  {
    if v != [] {
      var head, tail := if |v| <= 255 then v else v[..255], if |v| <= 255 then [] else v[255..];
      assert Fragments(tag, v) == [Item(tag, head)] + Fragments(tag, tail);
      NoBytes(tag);
      hide Fragments, Serialize;
      SerializeCons(Item(tag, head), Fragments(tag, tail));
    }
  }

  lemma {:induction false} NoBytes(tag: byte)
    ensures Serialize(Fragments(tag, [])) == []
  {
  }

  /** A stream that breaks off before a length, or before the first byte of a value, ends
      with the plain end-of-file error, and one that breaks off inside a value with the
      unexpected one. */
  lemma {:induction false} BrokenOff(items: seq<Item>, tail: seq<byte>)
    requires tail != [] && (|tail| >= 2 ==> |tail| - 2 < tail[1])
    ensures ReadAll(Serialize(items) + tail) == Failed(if |tail| <= 2 then Eof else UnexpectedEof)
  {
    BrokenFrom(items, tail, map[], false);
  }

  lemma {:induction false} BrokenFrom(items: seq<Item>, tail: seq<byte>, m: Buckets, d: bool)
    requires tail != [] && (|tail| >= 2 ==> |tail| - 2 < tail[1])
    ensures Read(Serialize(items) + tail, m, d) == Failed(if |tail| <= 2 then Eof else UnexpectedEof)
    decreases |items|
  {
    if items == [] {
      assert Serialize(items) + tail == tail;
    } else {
      var i, rest := items[0], Serialize(items[1..]) + tail;
      var bs := Serialize(items) + tail;
      assert items == [i] + items[1..];
      assert bs == ItemBytes(i) + rest by { Associate(ItemBytes(i), Serialize(items[1..]), tail); }
      assert bs[2..2 + bs[1]] == i.payload && bs[2 + bs[1]..] == rest;
      BrokenFrom(items[1..], tail, Add(m, d, i), i == DELIMITER);
    }
  }

  // ---- Writing ----

  /** Unsigned numbers take their width, low byte first; signed ones are taken modulo
      their width, an int64 modulo four bytes; a bool is one byte; the rest is written as
      it is. */
  lemma {:induction false} LeafBytes(l: Leaf, v: Value)
    requires LeafHasType(l, v)
    ensures var p := LeafPayload(l, v);
            match l
            case Unsigned(w) => |p| == w && FromLittleEndian(p) == v.n
            case Signed(w) =>
              var k: nat := if w == 8 then 4 else w;
              |p| == k && FromLittleEndian(p) == v.n % Pow256(k)
            case Float32 => p == v.bytes
            case Data => p == v.bytes
            case Text => p == v.bytes
            case Bool => p == if v.on then [1] else [0]
  {
    match l
    case Unsigned(w) => LittleEndianRoundTrip(v.n, w);
    case Signed(w) =>
      var k: nat := if w == 8 then 4 else w;
      var u := TwosComplement(v.n, w);
      LittleEndianPrefix(u, w, k);
      LittleEndianModulo(u, k);
      Truncated(v.n, w);
    case Float32 =>
    case Data =>
    case Text =>
    case Bool =>
  }

  // ---- Reading ----

  /** The widths that numbers are read in. */
  predicate IsWidth(k: nat) {
    k == 1 || k == 2 || k == 4 || k == 8
  }

  /** The longest width up to `w` that fits into `n` bytes. */
  predicate Longest(w: nat, n: nat, k: nat) {
    IsWidth(k) && k <= w && k <= n && (k == w || n < 2 * k)
  }

  lemma {:induction false} LongestIsUsed(w: UnsignedWidth, n: nat, k: nat)
    requires n > 0 && Longest(w, n, k)
    ensures UsedWidth(w, n) == k
  {
    if n < w {
      assert UsedWidth(w, n) == UsedWidth(w / 2, n);
      LongestIsUsed(w / 2, n, k);
    }
  }

  /** Decoding one field from one value under its tag. */
  lemma {:induction false} OneValue(f: Field, l: Leaf, b: seq<byte>)
    requires f.kind == Scalar(l) && b != []
    ensures var d := DecodeBytes([f], Serialize(Fragments(f.tag, b)));
            if LeafReadable(l, b) then d == Result(Done, [LeafValue(l, b)], map[])
            else d.status == Panic
  {
    WrittenValueReadsBack(f.tag, b);
    hide LeafValue, Serialize, Fragments, ReadAll;
    var m: Buckets := map[f.tag := [b]];
    assert [f][1..] == [] && Pop(m, f.tag) == map[];
    assert DecodeField(f, m) == DecodeLeaf(f, l, m);
    assert DecodeFields([], map[]) == Result(Done, [], map[]);
  }

  /** Any bytes read as an unsigned number give what their longest prefix of a known width
      spells. */
  lemma {:induction false} UnsignedReads(f: Field, w: UnsignedWidth, b: seq<byte>, k: nat)
    requires f.kind == Scalar(Unsigned(w)) && b != [] && Longest(w, |b|, k)
    ensures DecodeBytes([f], Serialize(Fragments(f.tag, b))) == Result(Done, [Num(FromLittleEndian(b[..k]))], map[])
  {
    hide DecodeBytes, Serialize, Fragments;
    OneValue(f, Unsigned(w), b);
    LongestIsUsed(w, |b|, k);
  }

  /** A number written in fewer bytes than its field has is read as that number. */
  lemma {:induction false} ShortUnsigned(f: Field, w: UnsignedWidth, k: nat, n: nat)
    requires f.kind == Scalar(Unsigned(w)) && IsWidth(k) && k <= w && n < Pow256(k)
    ensures DecodeBytes([f], [f.tag, k] + LittleEndian(n, k)) == Result(Done, [Num(n)], map[])
  {
    hide DecodeBytes, Serialize, Fragments;
    var b := LittleEndian(n, k);
    ValueBytes(f.tag, b);
    UnsignedReads(f, w, b, k);
    LittleEndianRoundTrip(n, k);
    assert b[..k] == b;
  }

  /** Signed numbers are read alike: a prefix of one byte as it is, a longer one in two's
      complement. */
  lemma {:induction false} SignedReads(f: Field, w: SignedWidth, b: seq<byte>, k: nat)
    requires f.kind == Scalar(Signed(w)) && b != [] && Longest(w, |b|, k)
    ensures var u := FromLittleEndian(b[..k]);
            var v := if k > 1 && 2 * u >= Pow256(k) then u - Pow256(k) else u;
            DecodeBytes([f], Serialize(Fragments(f.tag, b))) == Result(Done, [Num(v)], map[])
  {
    hide DecodeBytes, Serialize, Fragments;
    OneValue(f, Signed(w), b);
    LongestIsUsed(w, |b|, k);
  }

  /** The low bytes of a signed number are read as that number exactly when it fits them,
      and a single byte exactly when it is one. */
  lemma {:induction false} ShortSigned(f: Field, w: SignedWidth, k: nat, n: int)
    requires f.kind == Scalar(Signed(w)) && IsWidth(k) && k <= w
    ensures DecodeBytes([f], [f.tag, k] + LittleEndian(n % Pow256(k), k)) == Result(Done, [Num(n)], map[])
            <==> if k == 1 then 0 <= n < 256 else -(Pow256(k) as int) <= 2 * n < Pow256(k)
  {
    hide DecodeBytes, Serialize, Fragments, FromLittleEndian;
    var p := Pow256(k);
    var b := LittleEndian(n % p, k);
    ValueBytes(f.tag, b);
    SignedReads(f, w, b, k);
    LittleEndianRoundTrip(n % p, k);
    assert b[..k] == b;
    assert Pow256(1) == 256;
    if k == 1 {
      SmallModulo(n, p);
    } else {
      SignedRoundTrip(n, k);
    }
  }

  lemma {:induction false} SmallModulo(n: int, p: int)
    requires p > 0
    ensures n % p == n <==> 0 <= n < p
  {
    if 0 <= n < p {
      DivisionUnique(n, p, 0, n);
    }
  }

  /** A bool is true exactly when its first byte is one; a float32 takes four bytes and
      panics on fewer; strings and data take all of them. */
  lemma {:induction false} OthersRead(f: Field, l: Leaf, b: seq<byte>)
    requires f.kind == Scalar(l) && b != [] && (l.Bool? || l.Float32? || l.Data? || l.Text?)
    ensures var d := DecodeBytes([f], Serialize(Fragments(f.tag, b)));
            if l.Bool? then d == Result(Done, [Flag(b[0] == 1)], map[])
            else if l.Float32? then if |b| < 4 then d.status == Panic else d == Result(Done, [Raw(b[..4])], map[])
            else d == Result(Done, [Raw(b)], map[])
  {
    hide DecodeBytes, Serialize, Fragments;
    OneValue(f, l, b);
  }

  /** A field that nothing was written for is left at zero; a required scalar fails with
      the end-of-file error, and no other field does. */
  lemma {:induction false} MissingReads(f: Field)
    requires !f.kind.Inline?
    ensures var d := DecodeBytes([f], []);
            && d.status == (if f.kind.Scalar? && !f.optional then EOF else Done)
            && d.vals == [match f.kind
                          case Scalar(Unsigned(_)) => Num(0)
                          case Scalar(Signed(_)) => Num(0)
                          case Scalar(Float32) => Raw([0, 0, 0, 0])
                          case Scalar(Data) => Raw([])
                          case Scalar(Text) => Raw([])
                          case Scalar(Bool) => Flag(false)
                          case Struct(fs) => Record(Zeros(fs))
                          case Pointer(_) => Nil
                          case List(_) => Many([])
                          case Inline(_) => Many([])]
  {
    assert ReadAll([]) == Parsed(map[]);
    OneField(f, map[]);
    assert DecodeBytes([f], []) == DecodeFields([f], map[]);
    hide DecodeFields, DecodeBytes, ReadAll;
  }

  // ---- Nested structs ----

  /** A nested struct is what its bytes decode to; an end-of-file error inside leaves it
      unset, and any other failure is the field's. */
  lemma {:induction false} NestedReads(f: Field, fs: seq<Field>, b: seq<byte>)
    requires (f.kind == Struct(fs) || f.kind == Pointer(fs)) && b != []
    ensures var d, inner := DecodeBytes([f], Serialize(Fragments(f.tag, b))), DecodeBytes(fs, b);
            && d.status == (if inner.status == EOF then Done else inner.status)
            && (d.status == Done ==> d.rest == map[])
            && d.vals == [if inner.status == Done then if f.kind.Struct? then Record(inner.vals) else Ref(inner.vals)
                          else if f.kind.Struct? then Record(Zeros(fs)) else Nil]
  {
    WrittenValueReadsBack(f.tag, b);
    var m: Buckets := map[f.tag := [b]];
    assert Pop(m, f.tag) == map[];
    OneField(f, m);
    var bytes := Serialize(Fragments(f.tag, b));
    assert DecodeBytes([f], bytes) == DecodeFields([f], m);
    hide ReadAll, Serialize, Fragments, DecodeBytes, DecodeFields;
    assert DecodeField(f, m) == DecodeNested(f, fs, m);
  }

  lemma {:induction false} OneField(f: Field, m: Buckets)
    ensures var d := DecodeField(f, m); DecodeFields([f], m) == Result(d.status, [d.value], d.rest)
  {
    var d := DecodeField(f, m);
    assert [f][1..] == [];
    assert DecodeFields([], d.rest) == Result(Done, [], d.rest);
    hide DecodeField;
  }

  // ---- Lists ----

  /** Behind what a list has written so far, one more element is its bytes under the
      tag, after two zero bytes unless it is the first. */
  lemma {:induction false} ElementBytes(tag: byte, fs: seq<Field>, elems: seq<seq<Value>>, e: seq<Value>, first: bool)
    requires HaveTypes(fs, e) && forall i :: 0 <= i < |elems| ==> HaveTypes(fs, elems[i])
    ensures var more := (if first && elems == [] then [] else [0, 0]) + Serialize(Fragments(tag, Encode(fs, e)));
            Serialize(EncodeList(tag, fs, elems + [e], first)) == Serialize(EncodeList(tag, fs, elems, first)) + more
    decreases |elems|
  {
    hide Serialize, Encode, Fragments;
    var all := elems + [e];
    if elems == [] {
      assert all == [e] && all[1..] == [];
      LastBytes(first, Fragments(tag, Encode(fs, e)));
    } else {
      assert all[0] == elems[0] && all[1..] == elems[1..] + [e];
      ElementBytes(tag, fs, elems[1..], e, false);
      var head := (if first then [] else [DELIMITER]) + Fragments(tag, Encode(fs, elems[0]));
      var more := [0, 0] + Serialize(Fragments(tag, Encode(fs, e)));
      MoreBytes(head, EncodeList(tag, fs, elems[1..], false), EncodeList(tag, fs, all[1..], false), more);
    }
  }

  /** In an inline list the fields of the element stand there themselves. */
  lemma {:induction false} InlineBytes(fs: seq<Field>, elems: seq<seq<Value>>, e: seq<Value>, first: bool)
    requires HaveTypes(fs, e) && forall i :: 0 <= i < |elems| ==> HaveTypes(fs, elems[i])
    ensures var more := (if first && elems == [] then [] else [0, 0]) + Encode(fs, e);
            Serialize(EncodeInline(fs, elems + [e], first)) == Serialize(EncodeInline(fs, elems, first)) + more
    decreases |elems|
  {
    hide Serialize, EncodeFields;
    var all := elems + [e];
    if elems == [] {
      assert all == [e] && all[1..] == [];
      LastBytes(first, EncodeFields(fs, e));
    } else {
      assert all[0] == elems[0] && all[1..] == elems[1..] + [e];
      InlineBytes(fs, elems[1..], e, false);
      var head := (if first then [] else [DELIMITER]) + EncodeFields(fs, elems[0]);
      var more := [0, 0] + Encode(fs, e);
      MoreBytes(head, EncodeInline(fs, elems[1..], false), EncodeInline(fs, all[1..], false), more);
    }
  }

  lemma {:induction false} MoreBytes(head: seq<Item>, tail: seq<Item>, tail': seq<Item>, more: seq<byte>)
    requires Serialize(tail') == Serialize(tail) + more
    ensures Serialize(head + tail') == Serialize(head + tail) + more
  {
    hide Serialize;
    SerializeAppend(head, tail);
    SerializeAppend(head, tail');
    Associate(Serialize(head), Serialize(tail), more);
  }

  lemma {:induction false} LastBytes(first: bool, items: seq<Item>)
    ensures Serialize((if first then [] else [DELIMITER]) + items + [])
            == Serialize([]) + ((if first then [] else [0, 0]) + Serialize(items))
  {
    var lead: seq<Item> := if first then [] else [DELIMITER];
    assert lead + items + [] == lead + items;
    SerializeAppend(lead, items);
    assert Serialize([DELIMITER]) == [0, 0] + [] + Serialize([]);
  }
}
