/** Schemas and values of the TLV8 codec, and what encoding and decoding mean.

    A Go struct type with `tlv8` tags is a list of fields; a struct value is a
    list of values of the same length. The functions here are the meaning of
    the encoder and decoder methods in `Tlv8Codec`. */
module Tlv8Schema {
  import opened Bytes
  import opened Tlv8Format

  type UnsignedWidth = w: nat | w in {1, 2, 4, 8} witness 1
  type SignedWidth = w: nat | w in {2, 4, 8} witness 2

  datatype Leaf =
    | Unsigned(uwidth: UnsignedWidth) | Signed(swidth: SignedWidth)
    | Float32 | Data | Text | Bool

  datatype Kind =
    | Scalar(leaf: Leaf)
    | Struct(fields: seq<Field>)   // nested struct
    | Pointer(fields: seq<Field>)  // pointer to a struct, may be nil
    | List(fields: seq<Field>)     // slice of structs under one tag
    | Inline(fields: seq<Field>)   // slice of structs tagged "-"

  datatype Field = Field(tag: byte, optional: bool, kind: Kind)

  datatype Value =
    | Num(n: int) | Raw(bytes: seq<byte>) | Flag(on: bool)
    | Record(vals: seq<Value>)
    | Nil | Ref(vals: seq<Value>)
    | Many(elems: seq<seq<Value>>)

  predicate LeafHasType(l: Leaf, v: Value) {
    match l
    case Unsigned(w) => v.Num? && 0 <= v.n < Pow256(w)
    case Signed(w) => v.Num? && FitsSigned(v.n, w)
    case Float32 => v.Raw? && |v.bytes| == 4
    case Data => v.Raw?
    case Text => v.Raw?
    case Bool => v.Flag?
  }

  predicate HasType(f: Field, v: Value)
    decreases f
  {
    match f.kind
    case Scalar(l) => LeafHasType(l, v)
    case Struct(fs) => v.Record? && HaveTypes(fs, v.vals)
    case Pointer(fs) => v.Nil? || (v.Ref? && HaveTypes(fs, v.vals))
    case List(fs) => v.Many? && forall i :: 0 <= i < |v.elems| ==> HaveTypes(fs, v.elems[i])
    case Inline(fs) => v.Many? && forall i :: 0 <= i < |v.elems| ==> HaveTypes(fs, v.elems[i])
  }

  predicate HaveTypes(fs: seq<Field>, vs: seq<Value>)
    decreases fs
  {
    |fs| == |vs| &&
    (fs != [] ==> HasType(fs[0], vs[0]) && HaveTypes(fs[1..], vs[1..]))
  }

  function LeafZero(l: Leaf): Value {
    match l
    case Unsigned(_) => Num(0)
    case Signed(_) => Num(0)
    case Float32 => Raw([0, 0, 0, 0])
    case Data => Raw([])
    case Text => Raw([])
    case Bool => Flag(false)
  }

  function ZeroOf(f: Field): Value
    decreases f
  {
    match f.kind
    case Scalar(l) => LeafZero(l)
    case Struct(fs) => Record(Zeros(fs))
    case Pointer(_) => Nil
    case List(_) => Many([])
    case Inline(_) => Many([])
  }

  function Zeros(fs: seq<Field>): (zs: seq<Value>)
    ensures |zs| == |fs|
    decreases fs
  {
    if fs == [] then [] else [ZeroOf(fs[0])] + Zeros(fs[1..])
  }

  // ---- Encoding ----

  /** The bytes a leaf is written as. An int64 is written as four bytes. */
  function LeafPayload(l: Leaf, v: Value): seq<byte>
    requires LeafHasType(l, v)
  {
    match l
    case Unsigned(w) => LittleEndian(v.n, w)
    case Signed(w) => LittleEndian(TwosComplement(v.n, w), w)[..if w == 8 then 4 else w]
    case Float32 => v.bytes
    case Data => v.bytes
    case Text => v.bytes
    case Bool => [if v.on then 1 else 0]
  }

  function EncodeField(f: Field, v: Value): seq<Item>
    requires HasType(f, v)
    decreases f
  {
    match f.kind
    case Scalar(l) => Fragments(f.tag, LeafPayload(l, v))
    case Struct(fs) => Fragments(f.tag, Encode(fs, v.vals))
    case Pointer(fs) => if v.Nil? then [] else Fragments(f.tag, Encode(fs, v.vals))
    case List(fs) => EncodeList(f.tag, fs, v.elems, true)
    case Inline(fs) => EncodeInline(fs, v.elems, true)
  }

  /** Elements after the first are preceded by a delimiter. */
  function EncodeList(tag: byte, fs: seq<Field>, elems: seq<seq<Value>>, first: bool): seq<Item>
    requires forall i :: 0 <= i < |elems| ==> HaveTypes(fs, elems[i])
    decreases fs, 2, |elems|
  {
    if elems == [] then []
    else
      (if first then [] else [DELIMITER]) +
      Fragments(tag, Encode(fs, elems[0])) +
      EncodeList(tag, fs, elems[1..], false)
  }

  function EncodeInline(fs: seq<Field>, elems: seq<seq<Value>>, first: bool): seq<Item>
    requires forall i :: 0 <= i < |elems| ==> HaveTypes(fs, elems[i])
    decreases fs, 2, |elems|
  {
    if elems == [] then []
    else
      (if first then [] else [DELIMITER]) +
      EncodeFields(fs, elems[0]) +
      EncodeInline(fs, elems[1..], false)
  }

  function EncodeFields(fs: seq<Field>, vs: seq<Value>): seq<Item>
    requires HaveTypes(fs, vs)
    decreases fs, 0
  {
    if fs == [] then [] else EncodeField(fs[0], vs[0]) + EncodeFields(fs[1..], vs[1..])
  }

  function Encode(fs: seq<Field>, vs: seq<Value>): seq<byte>
    requires HaveTypes(fs, vs)
    decreases fs, 1
  {
    Serialize(EncodeFields(fs, vs))
  }

  // ---- Decoding ----

  /** How a decoding step ends: normally, with one of the two end-of-file
      errors, with an out-of-range panic, or never. */
  datatype Status = Done | Error(e: Truncation) | Panic | Diverge

  const EOF := Error(Eof)

  datatype FieldResult = FieldResult(status: Status, value: Value, rest: Buckets)
  datatype Result = Result(status: Status, vals: seq<Value>, rest: Buckets)

  function Pop(m: Buckets, tag: byte): Buckets
    requires tag in m
  {
    if |m[tag]| == 1 then m - {tag} else m[tag := m[tag][1..]]
  }

  /** The width actually read when the bucket may be shorter than the field. */
  function UsedWidth(w: UnsignedWidth, n: nat): (u: UnsignedWidth)
    requires n > 0
    ensures u <= n && u <= w
  {
    if n < w then UsedWidth(w / 2, n) else w
  }

  predicate LeafReadable(l: Leaf, b: seq<byte>) {
    b != [] && (l.Float32? ==> |b| >= 4)
  }

  function LeafValue(l: Leaf, b: seq<byte>): Value
    requires LeafReadable(l, b)
  {
    match l
    case Unsigned(w) => Num(FromLittleEndian(b[..UsedWidth(w, |b|)]))
    case Signed(w) =>
      var u := UsedWidth(w, |b|);
      var n := FromLittleEndian(b[..u]);
      Num(if u == 1 then n else SignedReading(n, u))
    case Float32 => Raw(b[..4])
    case Data => Raw(b)
    case Text => Raw(b)
    case Bool => Flag(b[0] == 1)
  }

  /** The slots of the reader's map; a map with fewer slots holds fewer buckets. */
  function Slots(m: Buckets): set<(byte, nat)>
  {
    set t, i: nat | t in m && i < |m[t]| :: (t, i)
  }

  function DecodeLeaf(f: Field, l: Leaf, m: Buckets): FieldResult {
    if f.tag !in m then FieldResult(if f.optional then Done else EOF, LeafZero(l), m)
    else
      var b, m' := m[f.tag][0], Pop(m, f.tag);
      if LeafReadable(l, b) then FieldResult(Done, LeafValue(l, b), m')
      else FieldResult(Panic, LeafZero(l), m')
  }

  /** Decoding a nested struct from the bytes of one bucket. */
  function DecodeBytes(fs: seq<Field>, b: seq<byte>): Result
    decreases fs, 1
  {
    match ReadAll(b)
    case Failed(e) => Result(Error(e), Zeros(fs), map[])
    case Parsed(m) => DecodeFields(fs, m)
  }

  /** A nested struct that is missing, or whose decoding runs into the plain
      end-of-file error, is left unset whether or not the field is optional. */
  function DecodeNested(f: Field, fs: seq<Field>, m: Buckets): FieldResult
    decreases fs, 2
  {
    var zero := if f.kind.Pointer? then Nil else Record(Zeros(fs));
    if f.tag !in m then FieldResult(Done, zero, m)
    else
      var d := DecodeBytes(fs, m[f.tag][0]);
      var m' := Pop(m, f.tag);
      if d.status == Done then FieldResult(Done, if f.kind.Pointer? then Ref(d.vals) else Record(d.vals), m')
      else FieldResult(if d.status == EOF then Done else d.status, zero, m')
  }

  datatype ListResult = ListResult(status: Status, elems: seq<seq<Value>>, rest: Buckets)

  function Prepend(e: seq<seq<Value>>, r: ListResult): ListResult {
    r.(elems := e + r.elems)
  }

  /** The loop of a named list: one bucket an iteration. */
  function DecodeList(tag: byte, fs: seq<Field>, m: Buckets): ListResult
    decreases fs, 2, Slots(m)
  {
    if tag !in m then ListResult(Done, [], m)
    else
      var b, m' := m[tag][0], Pop(m, tag);
      PopShrinks(m, tag);
      if ReadAll(b).Failed? then ListResult(Done, [], m')
      else
        var d := DecodeBytes(fs, b);
        if d.status == Panic || d.status == Diverge then ListResult(d.status, [], m')
        else
          var e := if d.status == Done || d.status == EOF then [d.vals] else [];
          if m' == map[] then ListResult(Done, e, m')
          else if d.status != Done then ListResult(d.status, e, m')
          else Prepend(e, DecodeList(tag, fs, m'))
  }

  /** The loop of an inline list: every iteration decodes a whole element from
      the enclosing reader. Iterations are alike, so one that neither leaves the
      loop nor takes a bucket repeats for ever. */
  function DecodeInline(fs: seq<Field>, m: Buckets): ListResult
    decreases fs, 2, Slots(m)
  {
    var d := DecodeFields(fs, m);
    if d.status == EOF then ListResult(Done, [], d.rest)
    else if d.status == Panic || d.status == Diverge then ListResult(d.status, [], d.rest)
    else
      var e := if d.status == Done then [d.vals] else [];
      if d.rest == map[] then ListResult(Done, e, d.rest)
      else if d.status != Done then ListResult(d.status, e, d.rest)
      else if !(Slots(d.rest) < Slots(m)) then ListResult(Diverge, e, d.rest)
      else Prepend(e, DecodeInline(fs, d.rest))
  }

  function DecodeField(f: Field, m: Buckets): FieldResult
    decreases f
  {
    match f.kind
    case Scalar(l) => DecodeLeaf(f, l, m)
    case Struct(fs) => DecodeNested(f, fs, m)
    case Pointer(fs) => DecodeNested(f, fs, m)
    case List(fs) => FromList(DecodeList(f.tag, fs, m))
    case Inline(fs) => FromList(DecodeInline(fs, m))
  }

  /** A slice field is set only when its loop ends without an error. */
  function FromList(r: ListResult): FieldResult {
    FieldResult(r.status, Many(if r.status == Done then r.elems else []), r.rest)
  }

  /** Fields are decoded in order; an error keeps the fields set so far. */
  function DecodeFields(fs: seq<Field>, m: Buckets): Result
    decreases fs, 0
  {
    if fs == [] then Result(Done, [], m)
    else
      var d := DecodeField(fs[0], m);
      if d.status != Done then Result(d.status, [d.value] + Zeros(fs[1..]), d.rest)
      else
        var r := DecodeFields(fs[1..], d.rest);
        r.(vals := [d.value] + r.vals)
  }

  lemma {:induction false} PopShrinks(m: Buckets, tag: byte)
    requires tag in m
    ensures Slots(Pop(m, tag)) < Slots(m)
  {
    var m' := Pop(m, tag);
    var last := (tag, |m[tag]| - 1);
    assert last in Slots(m) && last !in Slots(m');
  }
}
