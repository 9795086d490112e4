/** What a value writes, and what the reader makes of it. */
module Tlv8RoundTrip {
  import opened Bytes
  import opened Tlv8Format
  import opened Tlv8Schema

  // ---- Regular schemas ----

  /** A field that writes one value under its own tag. */
  predicate IsSingle(g: Field) {
    g.kind.Scalar? || g.kind.Struct? || g.kind.Pointer?
  }

  predicate IsRequiredScalar(g: Field) {
    g.kind.Scalar? && !g.optional
  }

  /** The tag whose items a field writes. An inline list writes its elements'
      single field directly into the enclosing struct. */
  function KeyTag(f: Field): byte {
    if f.kind.Inline? && f.kind.fields != [] then f.kind.fields[0].tag else f.tag
  }

  function KeyTags(fs: seq<Field>): set<byte> {
    if fs == [] then {} else {KeyTag(fs[0])} + KeyTags(fs[1..])
  }

  /** On every level the tags are distinct, and the elements of an inline list have one
      field that writes one value. */
  predicate Regular(fs: seq<Field>)
    decreases fs
  {
    fs != [] ==>
      && KeyTag(fs[0]) !in KeyTags(fs[1..])
      && FieldRegular(fs[0])
      && Regular(fs[1..])
  }

  predicate FieldRegular(f: Field)
    decreases f
  {
    match f.kind
    case Scalar(_) => true
    case Struct(fs) => Regular(fs)
    case Pointer(fs) => Regular(fs)
    case List(fs) => Regular(fs)
    case Inline(fs) => |fs| == 1 && IsSingle(fs[0]) && FieldRegular(fs[0])
  }

  /** An inline list that only ends with its input. */
  predicate OpenEnded(f: Field) {
    f.kind.Inline? && f.kind.fields != [] && !IsRequiredScalar(f.kind.fields[0])
  }

  // ---- What a field writes ----

  function Payload(g: Field, v: Value): seq<byte>
    requires IsSingle(g) && HasType(g, v)
  {
    match g.kind
    case Scalar(l) => LeafPayload(l, v)
    case Struct(fs) => Encode(fs, v.vals)
    case Pointer(fs) => if v.Nil? then [] else Encode(fs, v.vals)
    case List(fs) => []
    case Inline(fs) => []
  }

  function Encodings(fs: seq<Field>, elems: seq<seq<Value>>): (es: seq<seq<byte>>)
    requires forall i :: 0 <= i < |elems| ==> HaveTypes(fs, elems[i])
    ensures |es| == |elems| && forall i :: 0 <= i < |elems| ==> es[i] == Encode(fs, elems[i])
  {
    if elems == [] then [] else [Encode(fs, elems[0])] + Encodings(fs, elems[1..])
  }

  function ElementPayload(fs: seq<Field>, e: seq<Value>): seq<byte>
    requires |fs| == 1 && IsSingle(fs[0]) && HaveTypes(fs, e)
  {
    Payload(fs[0], e[0])
  }

  /** The values of an inline list of one-field elements. */
  function InlinePayloads(fs: seq<Field>, elems: seq<seq<Value>>): (ps: seq<seq<byte>>)
    requires |fs| == 1 && IsSingle(fs[0])
    requires forall i :: 0 <= i < |elems| ==> HaveTypes(fs, elems[i])
    ensures |ps| == |elems| && forall i :: 0 <= i < |elems| ==> ps[i] == ElementPayload(fs, elems[i])
  {
    if elems == [] then [] else [ElementPayload(fs, elems[0])] + InlinePayloads(fs, elems[1..])
  }

  /** The values that a field writes under its tag, separated by delimiters. */
  function Written(f: Field, v: Value): seq<seq<byte>>
    requires HasType(f, v) && FieldRegular(f)
  {
    match f.kind
    case Scalar(_) => [Payload(f, v)]
    case Struct(_) => [Payload(f, v)]
    case Pointer(_) => [Payload(f, v)]
    case List(fs) => Encodings(fs, v.elems)
    case Inline(fs) => InlinePayloads(fs, v.elems)
  }

  lemma {:induction false} ListItems(tag: byte, fs: seq<Field>, elems: seq<seq<Value>>, first: bool)
    requires forall i :: 0 <= i < |elems| ==> HaveTypes(fs, elems[i])
    ensures EncodeList(tag, fs, elems, first) == Delimited(tag, Encodings(fs, elems), first)
    decreases |elems|
  {
    if elems != [] {
      ListItems(tag, fs, elems[1..], false);
      assert Encodings(fs, elems)[1..] == Encodings(fs, elems[1..]);
    }
  }

  lemma {:induction false} OneItem(fs: seq<Field>, e: seq<Value>)
    requires |fs| == 1 && HaveTypes(fs, e)
    ensures EncodeFields(fs, e) == EncodeField(fs[0], e[0])
  {
    assert EncodeFields(fs[1..], e[1..]) == [];
  }

  lemma {:induction false} InlineItems(fs: seq<Field>, elems: seq<seq<Value>>, first: bool)
    requires |fs| == 1 && IsSingle(fs[0])
    requires forall i :: 0 <= i < |elems| ==> HaveTypes(fs, elems[i])
    ensures EncodeInline(fs, elems, first) == Delimited(fs[0].tag, InlinePayloads(fs, elems), first)
    decreases |elems|
  {
    if elems != [] {
      assert InlinePayloads(fs, elems)[1..] == InlinePayloads(fs, elems[1..]);
      hide EncodeFields, EncodeField, Fragments;
      OneItem(fs, elems[0]);
      InlineItems(fs, elems[1..], false);
    }
  }

  lemma {:induction false} FieldItems(f: Field, v: Value)
    requires HasType(f, v) && FieldRegular(f)
    ensures EncodeField(f, v) == Delimited(KeyTag(f), Written(f, v), true)
  {
    match f.kind
    case Scalar(_) =>
    case Struct(_) =>
    case Pointer(_) =>
    case List(fs) => ListItems(f.tag, fs, v.elems, true);
    case Inline(fs) => InlineItems(fs, v.elems, true);
  }

  // ---- What the reader holds after reading an encoding ----

  /** The buckets that remain of what a field wrote. */
  function QueueOf(f: Field, v: Value): (q: seq<seq<byte>>)
    requires HasType(f, v) && FieldRegular(f)
    ensures NoneEmpty(q)
  {
    KeptNoneEmpty([], Written(f, v));
    Kept([], Written(f, v))
  }

  lemma {:induction false} SingleQueue(g: Field, v: Value)
    requires IsSingle(g) && HasType(g, v) && FieldRegular(g)
    ensures QueueOf(g, v) == if Payload(g, v) == [] then [] else [Payload(g, v)]
  {
    var p := Payload(g, v);
    assert Written(g, v) == [p];
    assert Kept([], [p]) == Kept(KeptOne([], p), []);
  }

  function Queues(fs: seq<Field>, vs: seq<Value>): Buckets
    requires HaveTypes(fs, vs) && Regular(fs)
  {
    if fs == [] then map[]
    else Put(Queues(fs[1..], vs[1..]), KeyTag(fs[0]), QueueOf(fs[0], vs[0]))
  }

  lemma {:induction false} QueuesKeys(fs: seq<Field>, vs: seq<Value>)
    requires HaveTypes(fs, vs) && Regular(fs)
    ensures Queues(fs, vs).Keys <= KeyTags(fs)
  {
    if fs != [] {
      QueuesKeys(fs[1..], vs[1..]);
    }
  }

  lemma {:induction false} FieldsFold(fs: seq<Field>, vs: seq<Value>, m: Buckets, d: bool)
    requires HaveTypes(fs, vs) && Regular(fs)
    requires m.Keys !! KeyTags(fs)
    ensures Fold(EncodeFields(fs, vs), m, d).0 == m + Queues(fs, vs)
    decreases |fs|
  {
    if fs == [] {
      assert m + map[] == m;
    } else {
      hide Fold, FieldRegular, EncodeField, QueueOf;
      var f, v := fs[0], vs[0];
      FieldFold(f, v, m, d);
      var (m1, d1) := Fold(EncodeField(f, v), m, d);
      FieldsFold(fs[1..], vs[1..], m1, d1);
      FoldAppend(EncodeField(f, v), EncodeFields(fs[1..], vs[1..]), m, d);
      QueuesKeys(fs[1..], vs[1..]);
      PutMerge(m, Queues(fs[1..], vs[1..]), KeyTag(f), QueueOf(f, v));
    }
  }

  lemma {:induction false} FieldFold(f: Field, v: Value, m: Buckets, d: bool)
    requires HasType(f, v) && FieldRegular(f) && KeyTag(f) !in m
    ensures Fold(EncodeField(f, v), m, d).0 == Put(m, KeyTag(f), QueueOf(f, v))
  {
    hide Fold, EncodeField, Delimited, Kept, Written;
    FieldItems(f, v);
    DelimitedFold(KeyTag(f), Written(f, v), m, d);
  }

  lemma {:induction false} PutMerge(m: Buckets, r: Buckets, tag: byte, q: seq<seq<byte>>)
    requires tag !in r && NoneEmpty(q)
    ensures Put(m, tag, q) + r == m + Put(r, tag, q)
  {
  }

  /** Reading the encoding of any value of a regular schema: for each field, what is
      kept of the values it wrote. */
  lemma {:induction false} ReadEncoding(fs: seq<Field>, vs: seq<Value>)
    requires HaveTypes(fs, vs) && Regular(fs)
    ensures ReadAll(Encode(fs, vs)) == Parsed(Queues(fs, vs))
  {
    hide Queues, EncodeFields, Fold, HaveTypes, Regular, Read, Serialize;
    ReadSerialized(EncodeFields(fs, vs), map[], false);
    FieldsFold(fs, vs, map[], false);
    assert map[] + Queues(fs, vs) == Queues(fs, vs);
  }

  predicate Holds(m: Buckets, tag: byte, q: seq<seq<byte>>) {
    if q == [] then tag !in m else tag in m && m[tag] == q
  }

  lemma {:induction false} PutRemove(m: Buckets, tag: byte, q: seq<seq<byte>>)
    requires tag !in m && NoneEmpty(q)
    ensures Holds(Put(m, tag, q), tag, q) && Put(m, tag, q) - {tag} == m
  {
  }

  // ---- Scalars ----

  lemma {:induction false} LeafRoundTrip(l: Leaf, v: Value)
    requires LeafHasType(l, v)
    ensures LeafPayload(l, v) == [] ==> v == LeafZero(l)
    ensures LeafPayload(l, v) != [] ==>
              LeafReadable(l, LeafPayload(l, v))
              && (LeafValue(l, LeafPayload(l, v)) == v <==> (l == Signed(8) ==> FitsSigned(v.n, 4)))
  {
    match l
    case Unsigned(w) =>
      LittleEndianRoundTrip(v.n, w);
      assert LittleEndian(v.n, w)[..w] == LittleEndian(v.n, w);
    case Signed(w) => SignedRoundTripLeaf(w, v.n);
    case Float32 =>
    case Data =>
    case Text =>
    case Bool =>
  }

  /** A signed integer comes back exactly when it fits the bytes written for it:
      always for int16 and int32, and for int64 exactly in the int32 range. */
  lemma {:induction false} SignedRoundTripLeaf(w: SignedWidth, n: int)
    requires FitsSigned(n, w)
    ensures LeafPayload(Signed(w), Num(n)) != []
    ensures LeafValue(Signed(w), LeafPayload(Signed(w), Num(n))) == Num(n) <==> FitsSigned(n, if w == 8 then 4 else w)
  {
    var k := if w == 8 then 4 else w;
    var u := TwosComplement(n, w);
    var b := LeafPayload(Signed(w), Num(n));
    LittleEndianPrefix(u, w, k);
    assert b == LittleEndian(u, k);
    LittleEndianModulo(u, k);
    assert b[..k] == b && UsedWidth(w, k) == k;
    Truncated(n, w);
    hide LittleEndian, FromLittleEndian, TwosComplement, Pow256, FitsSigned;
    SignedRoundTrip(n, k);
  }

  lemma {:induction false} Truncated(n: int, w: SignedWidth)
    ensures var k := if w == 8 then 4 else w;
            TwosComplement(n, w) % Pow256(k) == TwosComplement(n, k)
  {
  }
}
