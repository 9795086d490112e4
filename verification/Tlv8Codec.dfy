/** The writer, reader, encoder and decoder as they run: a growing buffer, a map
    that is drained, and loops over fields and list elements. */
module Tlv8Codec {
  import opened Bytes
  import opened Options
  import opened Tlv8Format
  import opened Tlv8Schema

  class Writer {
    var buf: seq<byte>

    constructor ()
      ensures buf == []
    {
      buf := [];
    }

    method Write(b: seq<byte>)
      modifies this
      ensures buf == old(buf) + b
    {
      buf := buf + b;
    }

    method WriteBytes(tag: byte, value: seq<byte>)
      modifies this
      ensures buf == old(buf) + Serialize(Fragments(tag, value))
    {
      var rest: seq<byte> := value;
      while rest != []
        invariant buf + Serialize(Fragments(tag, rest)) == old(buf) + Serialize(Fragments(tag, value))
        decreases |rest|
      {
        var n := if |rest| < 255 then |rest| else 255;
        assert |rest| > 255 ==> Fragments(tag, rest)[1..] == Fragments(tag, rest[255..]);
        assert |rest| <= 255 ==> Fragments(tag, rest)[1..] == [] && rest[n..] == [] && rest[..n] == rest;
        Write([tag, n] + rest[..n]);
        rest := rest[n..];
      }
    }

    method WriteByte(tag: byte, b: byte)
      modifies this
      ensures buf == old(buf) + Serialize(Fragments(tag, [b]))
    {
      assert Serialize([Item(tag, [b])]) == [tag, 1] + [b] + Serialize([]);
      Write([tag, 1, b]);
    }

    method WriteBool(tag: byte, on: bool)
      modifies this
      ensures buf == old(buf) + Serialize(Fragments(tag, [if on then 1 else 0]))
    {
      WriteByte(tag, if on then 1 else 0);
    }

    method WriteLeaf(tag: byte, l: Leaf, v: Value)
      requires LeafHasType(l, v)
      modifies this
      ensures buf == old(buf) + Serialize(Fragments(tag, LeafPayload(l, v)))
    {
      match l
      case Unsigned(w) =>
        if w == 1 {
          assert LittleEndian(v.n, 1) == [v.n] + LittleEndian(v.n / 256, 0);
          WriteByte(tag, v.n);
        } else {
          WriteBytes(tag, LittleEndian(v.n, w));
        }
      case Signed(w) =>
        var b := LittleEndian(TwosComplement(v.n, w), w);
        WriteBytes(tag, b[..if w == 8 then 4 else w]);
      case Float32 => WriteBytes(tag, v.bytes);
      case Data => WriteBytes(tag, v.bytes);
      case Text => WriteBytes(tag, v.bytes);
      case Bool => WriteBool(tag, v.on);
    }
  }

  // ---- Encoder ----

  /** A struct's payload, built field by field in a fresh writer. */
  method StructPayload(fs: seq<Field>, vs: seq<Value>) returns (b: seq<byte>)
    requires HaveTypes(fs, vs)
    ensures b == Encode(fs, vs)
    decreases fs, 1
  {
    var wr := new Writer();
    var i := 0;
    ghost var rest := Encode(fs, vs);
    assert fs[0..] == fs && vs[0..] == vs;
    while i < |fs|
      invariant 0 <= i <= |fs| && HaveTypes(fs[i..], vs[i..])
      invariant rest == Serialize(EncodeFields(fs[i..], vs[i..]))
      invariant wr.buf + rest == Encode(fs, vs)
    {
      FieldsStep(fs, vs, i);
      ghost var part, next := Serialize(EncodeField(fs[i], vs[i])), Serialize(EncodeFields(fs[i + 1..], vs[i + 1..]));
      Associate(wr.buf, part, next);
      WriteField(wr, fs[i], vs[i]);
      i, rest := i + 1, next;
    }
    assert fs[i..] == [];
    b := wr.buf;
  }

  lemma {:induction false} FieldsStep(fs: seq<Field>, vs: seq<Value>, i: nat)
    requires i < |fs| && i < |vs| && HaveTypes(fs[i..], vs[i..])
    ensures HaveTypes(fs[i + 1..], vs[i + 1..])
    ensures Serialize(EncodeFields(fs[i..], vs[i..]))
            == Serialize(EncodeField(fs[i], vs[i])) + Serialize(EncodeFields(fs[i + 1..], vs[i + 1..]))
  {
    assert fs[i..][1..] == fs[i + 1..] && vs[i..][1..] == vs[i + 1..];
    SerializeAppend(EncodeField(fs[i], vs[i]), EncodeFields(fs[i + 1..], vs[i + 1..]));
  }

  method WriteField(wr: Writer, f: Field, v: Value)
    requires HasType(f, v)
    modifies wr
    ensures wr.buf == old(wr.buf) + Serialize(EncodeField(f, v))
    decreases f
  {
    match f.kind
    case Scalar(l) => wr.WriteLeaf(f.tag, l, v);
    case Struct(fs) =>
      var b := StructPayload(fs, v.vals);
      wr.WriteBytes(f.tag, b);
    case Pointer(fs) =>
      if v.Nil? {
        return;
      }
      var b := StructPayload(fs, v.vals);
      wr.WriteBytes(f.tag, b);
    case List(fs) => WriteList(wr, f.tag, fs, v.elems);
    case Inline(fs) => WriteInline(wr, fs, v.elems);
  }

  function Lead(first: bool): seq<byte> {
    if first then [] else [0, 0]
  }

  method WriteElement(wr: Writer, tag: byte, fs: seq<Field>, e: seq<Value>, first: bool)
    requires HaveTypes(fs, e)
    modifies wr
    ensures wr.buf == old(wr.buf) + (Lead(first) + Serialize(Fragments(tag, Encode(fs, e))))
    decreases fs, 2
  {
    var b := StructPayload(fs, e);
    if !first {
      wr.Write([0, 0]);
    }
    wr.WriteBytes(tag, b);
    assert first ==> Lead(first) + Serialize(Fragments(tag, b)) == Serialize(Fragments(tag, b));
  }

  method WriteList(wr: Writer, tag: byte, fs: seq<Field>, elems: seq<seq<Value>>)
    requires forall i :: 0 <= i < |elems| ==> HaveTypes(fs, elems[i])
    modifies wr
    ensures wr.buf == old(wr.buf) + Serialize(EncodeList(tag, fs, elems, true))
    decreases fs, 3
  {
    hide HaveTypes, Serialize, Fragments, Encode, EncodeList, Lead;
    var i := 0;
    assert elems[0..] == elems;
    ghost var rest := Serialize(EncodeList(tag, fs, elems, true));
    ghost var all := wr.buf + rest;
    while i < |elems|
      invariant 0 <= i <= |elems|
      invariant rest == Serialize(EncodeList(tag, fs, elems[i..], i == 0))
      invariant wr.buf + rest == all
    {
      ListStep(tag, fs, elems, i);
      ghost var part := Lead(i == 0) + Serialize(Fragments(tag, Encode(fs, elems[i])));
      ghost var next := Serialize(EncodeList(tag, fs, elems[i + 1..], false));
      Associate(wr.buf, part, next);
      WriteElement(wr, tag, fs, elems[i], i == 0);
      i, rest := i + 1, next;
    }
    assert elems[i..] == [];
    NoneWritten(tag, fs);
  }

  method WriteInlineElement(wr: Writer, fs: seq<Field>, e: seq<Value>, first: bool)
    requires HaveTypes(fs, e)
    modifies wr
    ensures wr.buf == old(wr.buf) + (Lead(first) + Encode(fs, e))
    decreases fs, 2
  {
    var b := StructPayload(fs, e);
    if !first {
      wr.Write([0, 0]);
    }
    wr.Write(b);
    assert first ==> Lead(first) + b == b;
  }

  method WriteInline(wr: Writer, fs: seq<Field>, elems: seq<seq<Value>>)
    requires forall i :: 0 <= i < |elems| ==> HaveTypes(fs, elems[i])
    modifies wr
    ensures wr.buf == old(wr.buf) + Serialize(EncodeInline(fs, elems, true))
    decreases fs, 3
  {
    hide HaveTypes, Serialize, Fragments, Encode, EncodeInline, Lead;
    var i := 0;
    assert elems[0..] == elems;
    ghost var rest := Serialize(EncodeInline(fs, elems, true));
    ghost var all := wr.buf + rest;
    while i < |elems|
      invariant 0 <= i <= |elems|
      invariant rest == Serialize(EncodeInline(fs, elems[i..], i == 0))
      invariant wr.buf + rest == all
    {
      InlineStep(fs, elems, i);
      ghost var part := Lead(i == 0) + Encode(fs, elems[i]);
      ghost var next := Serialize(EncodeInline(fs, elems[i + 1..], false));
      Associate(wr.buf, part, next);
      WriteInlineElement(wr, fs, elems[i], i == 0);
      i, rest := i + 1, next;
    }
    assert elems[i..] == [];
    NoneWritten(0, fs);
  }

  lemma {:induction false} NoneWritten(tag: byte, fs: seq<Field>)
    ensures forall first :: Serialize(EncodeList(tag, fs, [], first)) == []
    ensures forall first :: Serialize(EncodeInline(fs, [], first)) == []
  {
  }

  lemma {:induction false} ListStep(tag: byte, fs: seq<Field>, elems: seq<seq<Value>>, i: nat)
    requires i < |elems|
    requires forall j :: 0 <= j < |elems| ==> HaveTypes(fs, elems[j])
    ensures Serialize(EncodeList(tag, fs, elems[i..], i == 0))
            == Lead(i == 0) + Serialize(Fragments(tag, Encode(fs, elems[i])))
             + Serialize(EncodeList(tag, fs, elems[i + 1..], false))
  {
    assert elems[i..][1..] == elems[i + 1..];
    SeparatedStep(i == 0, Fragments(tag, Encode(fs, elems[i])), EncodeList(tag, fs, elems[i + 1..], false));
  }

  lemma {:induction false} InlineStep(fs: seq<Field>, elems: seq<seq<Value>>, i: nat)
    requires i < |elems|
    requires forall j :: 0 <= j < |elems| ==> HaveTypes(fs, elems[j])
    ensures Serialize(EncodeInline(fs, elems[i..], i == 0))
            == Lead(i == 0) + Encode(fs, elems[i])
             + Serialize(EncodeInline(fs, elems[i + 1..], false))
  {
    assert elems[i..][1..] == elems[i + 1..];
    SeparatedStep(i == 0, EncodeFields(fs, elems[i]), EncodeInline(fs, elems[i + 1..], false));
  }

  lemma {:induction false} SeparatedStep(first: bool, items: seq<Item>, rest: seq<Item>)
    ensures Serialize((if first then [] else [DELIMITER]) + items + rest)
            == Lead(first) + Serialize(items) + Serialize(rest)
  {
    var lead := if first then [] else [DELIMITER];
    SerializeAppend(lead + items, rest);
    SerializeAppend(lead, items);
    assert Serialize([DELIMITER]) == [0, 0] + [] + Serialize([]);
  }

  // ---- Reader ----

  class Reader {
    var m: Buckets

    constructor (m: Buckets)
      ensures this.m == m
    {
      this.m := m;
    }

    predicate AtEnd()
      reads this
    {
      m == map[]
    }

    function Len(tag: byte): nat
      reads this
    {
      if tag in m then |m[tag][0]| else 0
    }

    /** Takes the oldest bucket of a tag. */
    method ReadBytes(tag: byte) returns (b: Option<seq<byte>>)
      modifies this
      ensures tag !in old(m) ==> b == None && m == old(m)
      ensures tag in old(m) ==> b == Some(old(m)[tag][0]) && m == Pop(old(m), tag)
      ensures tag in old(m) ==> b.value != [] && Slots(m) < Slots(old(m))
    {
      if tag !in m {
        return None;
      }
      PopShrinks(m, tag);
      var list := m[tag];
      b := Some(list[0]);
      if |list| > 1 {
        m := m[tag := list[1..]];
      } else {
        m := m - {tag};
      }
    }

    /** An unsigned read falls back to half the width when the bucket is short. */
    method ReadUnsigned(tag: byte, w: UnsignedWidth) returns (n: Option<int>)
      modifies this
      ensures tag !in old(m) ==> n == None && m == old(m)
      ensures tag in old(m) ==>
                n == Some(LeafValue(Unsigned(w), old(m)[tag][0]).n) && m == Pop(old(m), tag)
      decreases w
    {
      if w > 1 && Len(tag) < w {
        n := ReadUnsigned(tag, w / 2);
        return;
      }
      var b := ReadBytes(tag);
      if b.None? {
        return None;
      }
      n := Some(FromLittleEndian(b.value[..w]));
    }

    method ReadSigned(tag: byte, w: SignedWidth) returns (n: Option<int>)
      modifies this
      ensures tag !in old(m) ==> n == None && m == old(m)
      ensures tag in old(m) ==>
                n == Some(LeafValue(Signed(w), old(m)[tag][0]).n) && m == Pop(old(m), tag)
      decreases w
    {
      if Len(tag) < w {
        if w == 2 {
          n := ReadUnsigned(tag, 1);
        } else {
          n := ReadSigned(tag, w / 2);
        }
        return;
      }
      var b := ReadBytes(tag);
      n := Some(SignedReading(FromLittleEndian(b.value[..w]), w));
    }

    method ReadLeaf(f: Field, l: Leaf) returns (st: Status, v: Value)
      modifies this
      ensures FieldResult(st, v, m) == DecodeLeaf(f, l, old(m))
    {
      st, v := if f.optional then Done else EOF, LeafZero(l);
      match l
      case Unsigned(w) =>
        var n := ReadUnsigned(f.tag, w);
        if n.Some? {
          st, v := Done, Num(n.value);
        }
      case Signed(w) =>
        var n := ReadSigned(f.tag, w);
        if n.Some? {
          st, v := Done, Num(n.value);
        }
      case Bool =>
        var b := ReadBytes(f.tag);
        if b.Some? {
          st, v := Done, Flag(b.value[0] == 1);
        }
      case Float32 =>
        var b := ReadBytes(f.tag);
        if b.Some? {
          if |b.value| < 4 {
            st := Panic;
          } else {
            st, v := Done, Raw(b.value[..4]);
          }
        }
      case Data =>
        var b := ReadBytes(f.tag);
        if b.Some? {
          st, v := Done, Raw(b.value);
        }
      case Text =>
        var b := ReadBytes(f.tag);
        if b.Some? {
          st, v := Done, Raw(b.value);
        }
    }
  }

  method AddItem(h: Buckets, tag: byte, v: seq<byte>, lastItemWasDelimiter: bool) returns (h': Buckets)
    requires |v| <= 255
    ensures h' == Add(h, lastItemWasDelimiter, Item(tag, v))
  {
    h' := h;
    if |v| > 0 {
      if tag in h {
        if lastItemWasDelimiter {
          h' := h[tag := h[tag] + [v]];
        } else {
          h' := h[tag := [h[tag][0] + v]];
        }
      } else {
        h' := h[tag := [v]];
      }
    }
  }

  /** Consumes the stream item by item and folds it into the reader's map. */
  method NewReader(bs: seq<byte>) returns (r: Reader, error: Option<Truncation>)
    ensures fresh(r)
    ensures match ReadAll(bs)
            case Parsed(m) => error == None && r.m == m
            case Failed(e) => error == Some(e)
  {
    var h: Buckets := map[];
    var stream, lastItemWasDelimiter := bs, false;
    r := new Reader(h);
    error := None;
    while stream != []
      invariant Read(stream, h, lastItemWasDelimiter) == ReadAll(bs)
      decreases |stream|
    {
      if |stream| == 1 {
        error := Some(Eof);
        return;
      }
      var tag, n := stream[0], stream[1];
      if |stream| - 2 < n {
        error := Some(if |stream| == 2 then Eof else UnexpectedEof);
        return;
      }
      h := AddItem(h, tag, stream[2..2 + n], lastItemWasDelimiter);
      lastItemWasDelimiter := tag == 0 && n == 0;
      stream := stream[2 + n..];
    }
    r := new Reader(h);
  }

  // ---- Decoder ----

  method Unmarshal(fs: seq<Field>, b: seq<byte>) returns (st: Status, vals: seq<Value>)
    ensures var d := DecodeBytes(fs, b); st == d.status && vals == d.vals
    decreases fs, 1
  {
    var r, error := NewReader(b);
    if error.Some? {
      return Error(error.value), Zeros(fs);
    }
    st, vals := DecodeInto(r, fs);
  }

  /** Fields already set, followed by what decoding the others gives. */
  ghost function After(done: seq<Value>, d: Result): Result {
    d.(vals := done + d.vals)
  }

  lemma {:induction false} DecodeStep(fs: seq<Field>, i: nat, m: Buckets, done: seq<Value>)
    requires i < |fs|
    ensures var d := DecodeField(fs[i], m);
            After(done, DecodeFields(fs[i..], m)) ==
            if d.status != Done then Result(d.status, done + ([d.value] + Zeros(fs[i + 1..])), d.rest)
            else After(done + [d.value], DecodeFields(fs[i + 1..], d.rest))
    ensures Zeros(fs[i..])[1..] == Zeros(fs[i + 1..])
  {
    assert fs[i..][1..] == fs[i + 1..];
    var d := DecodeField(fs[i], m);
    var r := DecodeFields(fs[i + 1..], d.rest);
    assert done + ([d.value] + r.vals) == (done + [d.value]) + r.vals;
  }

  /** Sets the fields of a zero struct one after the other, until an error. */
  method DecodeInto(r: Reader, fs: seq<Field>) returns (st: Status, vals: seq<Value>)
    modifies r
    ensures Result(st, vals, r.m) == DecodeFields(fs, old(r.m))
    decreases fs, 0
  {
    vals := Zeros(fs);
    st := Done;
    var i := 0;
    ghost var all := DecodeFields(fs, r.m);
    assert fs[0..] == fs && vals[0..] == vals && vals[..0] == [];
    assert [] + all.vals == all.vals;
    while i < |fs|
      invariant 0 <= i <= |fs| == |vals| && st == Done
      invariant vals[i..] == Zeros(fs[i..])
      invariant all == After(vals[..i], DecodeFields(fs[i..], r.m))
    {
      DecodeStep(fs, i, r.m, vals[..i]);
      var v;
      st, v := DecodeFieldInto(r, fs[i]);
      SetField(vals, i, v);
      vals := vals[i := v];
      if st != Done {
        return;
      }
      i := i + 1;
    }
    assert fs[i..] == [];
    assert vals[..i] + [] == vals;
  }

  lemma {:induction false} SetField(vals: seq<Value>, i: nat, v: Value)
    requires i < |vals|
    ensures var w := vals[i := v];
            && w[..i + 1] == vals[..i] + [v]
            && w[i + 1..] == vals[i..][1..]
            && w == vals[..i] + ([v] + vals[i..][1..])
  {
  }

  method DecodeFieldInto(r: Reader, f: Field) returns (st: Status, v: Value)
    modifies r
    ensures FieldResult(st, v, r.m) == DecodeField(f, old(r.m))
    decreases f
  {
    match f.kind
    case Scalar(l) => st, v := r.ReadLeaf(f, l);
    case Struct(fs) => st, v := DecodeNestedInto(r, f, fs);
    case Pointer(fs) => st, v := DecodeNestedInto(r, f, fs);
    case List(fs) =>
      var elems;
      st, elems := DecodeListInto(r, f.tag, fs);
      v := Many(if st == Done then elems else []);
    case Inline(fs) =>
      var elems;
      st, elems := DecodeInlineInto(r, fs);
      v := Many(if st == Done then elems else []);
  }

  method DecodeNestedInto(r: Reader, f: Field, fs: seq<Field>) returns (st: Status, v: Value)
    modifies r
    ensures FieldResult(st, v, r.m) == DecodeNested(f, fs, old(r.m))
    decreases fs, 2
  {
    st, v := Done, if f.kind.Pointer? then Nil else Record(Zeros(fs));
    var b := r.ReadBytes(f.tag);
    if b.None? {
      return;
    }
    var inner, vals := Unmarshal(fs, b.value);
    if inner == Done {
      v := if f.kind.Pointer? then Ref(vals) else Record(vals);
    } else if inner != EOF {
      st := inner;
    }
  }

  /** A list so far, followed by what one element and the rest of the loop give. */
  lemma {:induction false} PrependTwice(slice: seq<seq<Value>>, e: seq<seq<Value>>, r: ListResult)
    ensures Prepend(slice, Prepend(e, r)) == Prepend(slice + e, r)
  {
    Associate(slice, e, r.elems);
  }

  lemma {:induction false} PrependNothing(slice: seq<seq<Value>>, st: Status, m: Buckets)
    ensures Prepend(slice, ListResult(st, [], m)) == ListResult(st, slice, m)
    ensures Prepend([], ListResult(st, slice, m)) == ListResult(st, slice, m)
  {
    assert slice + [] == slice == [] + slice;
  }

  lemma {:induction false} PrependToNothing(r: ListResult)
    ensures Prepend([], r) == r
  {
    PrependNothing(r.elems, r.status, r.rest);
  }

  method DecodeListInto(r: Reader, tag: byte, fs: seq<Field>) returns (st: Status, slice: seq<seq<Value>>)
    modifies r
    ensures ListResult(st, slice, r.m) == DecodeList(tag, fs, old(r.m))
    decreases fs, 2
  {
    hide Prepend;
    slice := [];
    PrependToNothing(DecodeList(tag, fs, r.m));
    while true
      invariant Prepend(slice, DecodeList(tag, fs, r.m)) == DecodeList(tag, fs, old(r.m))
      decreases Slots(r.m)
    {
      var b := r.ReadBytes(tag);
      PrependNothing(slice, Done, r.m);
      if b.None? {
        return Done, slice;
      }
      var element, error := NewReader(b.value);
      if error.Some? {
        return Done, slice;
      }
      var vals;
      st, vals := DecodeInto(element, fs);
      PrependNothing(slice, st, r.m);
      if st == Panic || st == Diverge {
        return;
      }
      var e := if st == Done || st == EOF then [vals] else [];
      PrependTwice(slice, e, DecodeList(tag, fs, r.m));
      PrependElement(slice, e, Done, r.m);
      PrependElement(slice, e, st, r.m);
      slice := slice + e;
      if r.AtEnd() {
        return Done, slice;
      }
      if st != Done {
        return;
      }
    }
  }

  lemma {:induction false} PrependElement(slice: seq<seq<Value>>, e: seq<seq<Value>>, st: Status, m: Buckets)
    ensures Prepend(slice, ListResult(st, e, m)) == ListResult(st, slice + e, m)
  {
  }

  method DecodeInlineInto(r: Reader, fs: seq<Field>) returns (st: Status, slice: seq<seq<Value>>)
    modifies r
    ensures ListResult(st, slice, r.m) == DecodeInline(fs, old(r.m))
    decreases fs, 2
  {
    hide Prepend;
    slice := [];
    PrependToNothing(DecodeInline(fs, r.m));
    while true
      invariant Prepend(slice, DecodeInline(fs, r.m)) == DecodeInline(fs, old(r.m))
      decreases Slots(r.m)
    {
      var before := r.m;
      var vals;
      st, vals := DecodeInto(r, fs);
      PrependNothing(slice, Done, r.m);
      if st == EOF {
        return Done, slice;
      }
      PrependNothing(slice, st, r.m);
      if st == Panic || st == Diverge {
        return;
      }
      var e := if st == Done then [vals] else [];
      PrependTwice(slice, e, DecodeInline(fs, r.m));
      PrependElement(slice, e, Done, r.m);
      PrependElement(slice, e, st, r.m);
      PrependElement(slice, e, Diverge, r.m);
      slice := slice + e;
      if r.AtEnd() {
        return Done, slice;
      }
      if st != Done {
        return;
      }
      if !(Slots(r.m) < Slots(before)) {
        return Diverge, slice;
      }
    }
  }
}
