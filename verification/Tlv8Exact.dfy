/** Exactly which values come back from their encoding. */
module Tlv8Exact {
  import opened Bytes
  import opened Tlv8Format
  import opened Tlv8Schema
  import opened Tlv8RoundTrip
  import opened Tlv8Outcomes

  // ---- The condition ----

  /** A required scalar is not empty, and an int64 fits 32 bits. */
  predicate LeafExact(f: Field, l: Leaf, v: Value)
    requires LeafHasType(l, v)
  {
    && (!f.optional ==> LeafPayload(l, v) != [])
    && (l == Signed(8) ==> FitsSigned(v.n, 4))
  }

  /** A required scalar that is not written at all. */
  predicate Lacks(f: Field, v: Value)
    requires HasType(f, v)
  {
    IsRequiredScalar(f) && LeafPayload(f.kind.leaf, v) == []
  }

  predicate RequiresBytes(f: Field) {
    IsRequiredScalar(f) && (f.kind.leaf.Data? || f.kind.leaf.Text?)
  }

  /** How decoding an encoded zero value ends: with the end-of-file error at the first
      required byte string, unless it is stuck before. */
  function ZeroEnd(fs: seq<Field>): (st: Status)
    requires Regular(fs)
    ensures st == Done || st == EOF || st == Diverge
    decreases fs, 0
  {
    if fs == [] then Done
    else if RequiresBytes(fs[0]) then EOF
    else
      ZerosTyped(fs[1..]);
      if ZeroSticks(fs[0], Queues(fs[1..], Zeros(fs[1..])) == map[]) then Diverge else ZeroEnd(fs[1..])
  }

  /** An empty inline list of anything but required scalars does not end while something
      is left to read. */
  predicate ZeroSticks(f: Field, alone: bool)
    requires FieldRegular(f)
    decreases f, 0
  {
    match f.kind
    case Scalar(_) => false
    case Struct(fs) => ZerosTyped(fs); Encode(fs, Zeros(fs)) != [] && ZeroEnd(fs) == Diverge
    case Pointer(_) => false
    case List(_) => false
    case Inline(_) => OpenEnded(f) && !alone
  }

  /** The value comes back: every field does, given whether anything is left to read
      behind it. */
  predicate Exact(fs: seq<Field>, vs: seq<Value>)
    requires HaveTypes(fs, vs) && Regular(fs)
    decreases fs, 0, 0
  {
    fs != [] ==> FieldExact(fs[0], vs[0], Queues(fs[1..], vs[1..]) == map[]) && Exact(fs[1..], vs[1..])
  }

  /** The value is what decoding has set when it meets the end-of-file error: its fields
      come back up to a required scalar that was not written, and the others are zero. */
  predicate Partial(fs: seq<Field>, vs: seq<Value>)
    requires HaveTypes(fs, vs) && Regular(fs)
    decreases fs, 0, 0
  {
    fs != [] &&
    if Lacks(fs[0], vs[0]) then vs[1..] == Zeros(fs[1..])
    else FieldExact(fs[0], vs[0], Queues(fs[1..], vs[1..]) == map[]) && Partial(fs[1..], vs[1..])
  }

  /** A struct that is not written, or that ends with the end-of-file error, is left
      unset, so it comes back if it is zero. A pointer comes back as nil if nothing is
      written. A named list needs values that delimiters keep apart; its very last
      element may be partial if nothing else is left to read. An inline list of anything
      but required scalars ends only when nothing is left, and then reads at least one
      element. */
  predicate FieldExact(f: Field, v: Value, alone: bool)
    requires HasType(f, v) && FieldRegular(f)
    decreases f, 0, 0
  {
    match f.kind
    case Scalar(l) => LeafExact(f, l, v)
    case Struct(fs) =>
      if Encode(fs, v.vals) == [] then v.vals == Zeros(fs)
      else Exact(fs, v.vals) || (v.vals == Zeros(fs) && ZeroEnd(fs) == EOF)
    case Pointer(fs) => v.Nil? || (Encode(fs, v.vals) != [] && Exact(fs, v.vals))
    case List(fs) => Separable(Encodings(fs, v.elems)) && ElementsExact(fs, v.elems, alone)
    case Inline(fs) =>
      && (IsRequiredScalar(fs[0]) || (alone && v.elems != []))
      && (|v.elems| == 1 || Separable(InlinePayloads(fs, v.elems)))
      && SinglesExact(fs, v.elems)
  }

  predicate ElementsExact(fs: seq<Field>, elems: seq<seq<Value>>, alone: bool)
    requires Regular(fs) && forall i :: 0 <= i < |elems| ==> HaveTypes(fs, elems[i])
    decreases fs, 1, |elems|
  {
    elems != [] ==>
      && (Exact(fs, elems[0]) || (alone && |elems| == 1 && Partial(fs, elems[0])))
      && ElementsExact(fs, elems[1..], alone)
  }

  predicate SinglesExact(fs: seq<Field>, elems: seq<seq<Value>>)
    requires |fs| == 1 && IsSingle(fs[0]) && FieldRegular(fs[0])
    requires forall i :: 0 <= i < |elems| ==> HaveTypes(fs, elems[i])
    decreases fs, 1, |elems|
  {
    elems != [] ==> ElementExact(fs, elems[0]) && SinglesExact(fs, elems[1..])
  }

  predicate ElementExact(fs: seq<Field>, e: seq<Value>)
    requires |fs| == 1 && IsSingle(fs[0]) && FieldRegular(fs[0]) && HaveTypes(fs, e)
    decreases fs, 0, 0
  {
    FieldExact(fs[0], e[0], true)
  }

  // ---- Zero values ----

  lemma {:induction false} ZerosTyped(fs: seq<Field>)
    ensures HaveTypes(fs, Zeros(fs))
    decreases fs
  {
    if fs != [] {
      ZeroTyped(fs[0]);
      ZerosTyped(fs[1..]);
    }
  }

  lemma {:induction false} ZeroTyped(f: Field)
    ensures HasType(f, ZeroOf(f))
    decreases f
  {
    match f.kind
    case Scalar(_) =>
    case Struct(fs) => ZerosTyped(fs);
    case Pointer(_) =>
    case List(_) =>
    case Inline(_) =>
  }

  lemma {:induction false} ZeroLeaf(l: Leaf)
    ensures LeafHasType(l, LeafZero(l))
    ensures LeafPayload(l, LeafZero(l)) == [] <==> l.Data? || l.Text?
    ensures LeafPayload(l, LeafZero(l)) != [] ==> LeafReadable(l, LeafPayload(l, LeafZero(l)))
  {
    LeafRoundTrip(l, LeafZero(l));
  }

  /** A list without elements, or with nothing left of them. */
  lemma {:induction false} NoElements(f: Field, m: Buckets)
    requires f.kind.List? || (f.kind.Inline? && FieldRegular(f))
    requires KeyTag(f) !in m
    ensures OpenEnded(f) && m != map[] ==> DecodeField(f, m).status == Diverge
    ensures OpenEnded(f) && m == map[] ==>
              DecodeField(f, m) == FieldResult(Done, Many([[ZeroOf(f.kind.fields[0])]]), m)
    ensures !OpenEnded(f) ==> DecodeField(f, m) == FieldResult(Done, Many([]), m)
  {
    match f.kind
    case List(fs) =>
    case Inline(fs) =>
      Missing(fs[0], m);
      OneField(fs, m);
      assert DecodeField(f, m) == FromList(DecodeInline(fs, m));
  }

  lemma {:induction false} OneField(fs: seq<Field>, m: Buckets)
    requires |fs| == 1
    ensures var d := DecodeField(fs[0], m); DecodeFields(fs, m) == Result(d.status, [d.value], d.rest)
  {
    assert fs[1..] == [];
    var d := DecodeField(fs[0], m);
    assert DecodeFields([], d.rest) == Result(Done, [], d.rest);
  }

  lemma {:induction false} Missing(g: Field, m: Buckets)
    requires IsSingle(g) && g.tag !in m
    ensures DecodeField(g, m) == FieldResult(if IsRequiredScalar(g) then EOF else Done, ZeroOf(g), m)
  {
    match g.kind
    case Scalar(l) => assert DecodeField(g, m) == DecodeLeaf(g, l, m);
    case Struct(fs) => assert DecodeField(g, m) == DecodeNested(g, fs, m);
    case Pointer(fs) => assert DecodeField(g, m) == DecodeNested(g, fs, m);
  }

  /** How decoding a zero field ends. */
  lemma {:induction false} ZeroFieldEnds(f: Field, m: Buckets)
    requires FieldRegular(f) && HasType(f, ZeroOf(f))
    requires Holds(m, KeyTag(f), QueueOf(f, ZeroOf(f)))
    ensures var d := DecodeField(f, m);
            if RequiresBytes(f) then d.status == EOF
            else if ZeroSticks(f, m - {KeyTag(f)} == map[]) then d.status == Diverge
            else d.status == Done && d.rest == m - {KeyTag(f)}
    decreases f, 1
  {
    if KeyTag(f) !in m {
      assert m - {KeyTag(f)} == m;
    }
    match f.kind
    case Scalar(l) =>
      ZeroLeaf(l);
      SingleQueue(f, ZeroOf(f));
    case Struct(fs) =>
      ZerosEnd(fs);
      SingleQueue(f, ZeroOf(f));
    case Pointer(fs) =>
      SingleQueue(f, ZeroOf(f));
      Missing(f, m);
    case List(fs) => NoElements(f, m);
    case Inline(fs) => NoElements(f, m);
  }

  lemma {:induction false} ZeroFieldsEnd(fs: seq<Field>)
    requires Regular(fs) && HaveTypes(fs, Zeros(fs))
    ensures DecodeFields(fs, Queues(fs, Zeros(fs))).status == ZeroEnd(fs)
    decreases fs, 0
  {
    hide DecodeField, FieldRegular, HasType, QueueOf, RequiresBytes, ZeroSticks;
    if fs != [] {
      var f, r := fs[0], Queues(fs[1..], Zeros(fs[1..]));
      assert Zeros(fs)[0] == ZeroOf(f) && Zeros(fs)[1..] == Zeros(fs[1..]);
      QueuesKeys(fs[1..], Zeros(fs[1..]));
      PutRemove(r, KeyTag(f), QueueOf(f, ZeroOf(f)));
      ZeroFieldEnds(f, Queues(fs, Zeros(fs)));
      ZeroFieldsEnd(fs[1..]);
    }
  }

  /** How decoding an encoded zero struct ends. */
  lemma {:induction false} ZerosEnd(fs: seq<Field>)
    requires Regular(fs)
    ensures HaveTypes(fs, Zeros(fs))
    ensures DecodeBytes(fs, Encode(fs, Zeros(fs))).status == ZeroEnd(fs)
    decreases fs, 1
  {
    hide Encode, Queues, DecodeFields, ZeroEnd;
    ZerosTyped(fs);
    ReadEncoding(fs, Zeros(fs));
    ZeroFieldsEnd(fs);
  }

  // ---- One field ----

  /** What decoding the encoding of a struct gives. */
  ghost predicate Known(fs: seq<Field>, vs: seq<Value>)
    requires HaveTypes(fs, vs) && Regular(fs)
  {
    var d := DecodeBytes(fs, Encode(fs, vs));
    && ReadAll(Encode(fs, vs)).Parsed?
    && (d.status == Done && d.vals == vs <==> Exact(fs, vs))
    && (d.status == EOF && d.vals == vs <==> Partial(fs, vs))
    && (d.status == Done && d.vals == vs ==> d.rest == map[])
  }

  /** The oldest bucket of a field's tag is what the value was written as. */
  lemma {:induction false} HeadExactly(g: Field, v: Value, m: Buckets)
    requires IsSingle(g) && FieldRegular(g) && HasType(g, v)
    requires g.tag in m && m[g.tag][0] == Payload(g, v)
    ensures var d := DecodeField(g, m);
            && d.rest == Pop(m, g.tag) && d.status != EOF
            && (d.status == Done && d.value == v <==> FieldExact(g, v, true))
    decreases g, 2
  {
    match g.kind
    case Scalar(l) => LeafRoundTrip(l, v);
    case Struct(fs) =>
      ExactBytes(fs, v.vals);
      if v.vals == Zeros(fs) {
        ZerosEnd(fs);
      }
    case Pointer(fs) => ExactBytes(fs, v.vals);
  }

  lemma {:induction false} MissingExactly(g: Field, v: Value, m: Buckets)
    requires IsSingle(g) && FieldRegular(g) && HasType(g, v)
    requires g.tag !in m && Payload(g, v) == []
    ensures var d := DecodeField(g, m);
            && d == FieldResult(if IsRequiredScalar(g) then EOF else Done, ZeroOf(g), m)
            && (d.status == Done && d.value == v <==> FieldExact(g, v, true))
            && (d.status == EOF ==> d.value == v)
  {
    Missing(g, m);
    match g.kind
    case Scalar(l) => LeafRoundTrip(l, v);
    case Struct(fs) =>
    case Pointer(fs) =>
  }

  /** Single values do not ask whether anything is left to read. */
  lemma {:induction false} AloneMatters(f: Field, v: Value, alone: bool)
    requires HasType(f, v) && FieldRegular(f) && IsSingle(f)
    ensures FieldExact(f, v, alone) <==> FieldExact(f, v, true)
  {
  }

  /** What comes back before other fields also comes back with nothing behind it. */
  lemma {:induction false} MoreWhenAlone(f: Field, v: Value)
    requires HasType(f, v) && FieldRegular(f) && FieldExact(f, v, false)
    ensures FieldExact(f, v, true)
  {
    if f.kind.List? {
      MoreElementsAlone(f.kind.fields, v.elems);
    }
  }

  lemma {:induction false} MoreElementsAlone(fs: seq<Field>, elems: seq<seq<Value>>)
    requires Regular(fs) && forall i :: 0 <= i < |elems| ==> HaveTypes(fs, elems[i])
    requires ElementsExact(fs, elems, false)
    ensures ElementsExact(fs, elems, true)
    decreases |elems|
  {
    hide Exact, Partial;
    if elems != [] {
      MoreElementsAlone(fs, elems[1..]);
    }
  }

  lemma {:induction false} SingleExactly(g: Field, v: Value, m: Buckets)
    requires IsSingle(g) && FieldRegular(g) && HasType(g, v)
    requires Holds(m, g.tag, QueueOf(g, v))
    ensures var d := DecodeField(g, m);
            && (d.status == Done && d.value == v <==> FieldExact(g, v, true))
            && (d.status == EOF && d.value == v <==> Lacks(g, v))
            && d.rest == m - {g.tag}
    decreases g, 3
  {
    SingleQueue(g, v);
    if g.tag in m {
      HeadExactly(g, v, m);
    } else {
      MissingExactly(g, v, m);
      assert m - {g.tag} == m;
    }
  }

  // ---- Named lists ----

  lemma {:induction false} DecodedListLength(tag: byte, fs: seq<Field>, m: Buckets)
    ensures |DecodeList(tag, fs, m).elems| <= |QueueAt(m, tag)|
    decreases |QueueAt(m, tag)|
  {
    if tag in m {
      DecodedListLength(tag, fs, Pop(m, tag));
    }
  }

  /** One bucket of a named list. */
  lemma {:induction false} ListStep(tag: byte, fs: seq<Field>, m: Buckets)
    requires tag in m && ReadAll(m[tag][0]).Parsed?
    ensures var d, r, m' := DecodeBytes(fs, m[tag][0]), DecodeList(tag, fs, m), Pop(m, tag);
            && (d.status == Done && m' != map[] ==> r == Prepend([d.vals], DecodeList(tag, fs, m')))
            && ((d.status == Done || d.status == EOF) && m' == map[] ==> r == ListResult(Done, [d.vals], m'))
            && (d.status == EOF && m' != map[] ==> r.status != Done)
            && (d.status != Done && d.status != EOF ==> r.status != Done || r.elems == [])
  {
    hide DecodeBytes, ReadAll;
  }

  lemma {:induction false} PopLast(m: Buckets, tag: byte)
    requires tag in m
    ensures |m[tag]| == 1 ==> Pop(m, tag) == m - {tag}
    ensures |m[tag]| > 1 ==> tag in Pop(m, tag) && Pop(m, tag)[tag] == m[tag][1..] && Pop(m, tag) - {tag} == m - {tag}
  {
  }

  lemma {:induction false} ListExactly(tag: byte, fs: seq<Field>, elems: seq<seq<Value>>, m: Buckets)
    requires Regular(fs) && elems != []
    requires forall i :: 0 <= i < |elems| ==> HaveTypes(fs, elems[i]) && Known(fs, elems[i])
    requires tag in m && m[tag] == Encodings(fs, elems)
    ensures var r := DecodeList(tag, fs, m);
            && (r.status == Done && r.elems == elems <==> ElementsExact(fs, elems, m - {tag} == map[]))
            && (r.status == Done && r.elems == elems ==> r.rest == m - {tag})
    decreases |elems|
  {
    hide DecodeBytes, DecodeList, Encode, Exact, Partial, HaveTypes, Regular, ReadAll, Pop;
    var d := DecodeBytes(fs, m[tag][0]);
    assert Known(fs, elems[0]) && m[tag][0] == Encode(fs, elems[0]);
    assert Encodings(fs, elems)[1..] == Encodings(fs, elems[1..]);
    ListStep(tag, fs, m);
    PopLast(m, tag);
    assert elems == [elems[0]] + elems[1..];
    if elems[1..] != [] {
      ListExactly(tag, fs, elems[1..], Pop(m, tag));
      var r := DecodeList(tag, fs, Pop(m, tag));
      assert ([d.vals] + r.elems)[0] == d.vals && ([d.vals] + r.elems)[1..] == r.elems;
    } else if d.status == Done && Pop(m, tag) != map[] {
      ListIsOver(tag, fs, Pop(m, tag));
      assert [d.vals] + [] == [d.vals];
    }
  }

  lemma {:induction false} ListIsOver(tag: byte, fs: seq<Field>, m: Buckets)
    requires tag !in m
    ensures DecodeList(tag, fs, m) == ListResult(Done, [], m)
  {
  }

  // ---- Inline lists ----

  lemma {:induction false} InlineStep(fs: seq<Field>, m: Buckets)
    requires |fs| == 1 && IsSingle(fs[0]) && fs[0].tag in m
    ensures var d, r, m' := DecodeField(fs[0], m), DecodeInline(fs, m), Pop(m, fs[0].tag);
            && (d.status == Done && d.rest == m' ==>
                  r == if m' == map[] then ListResult(Done, [[d.value]], m')
                       else Prepend([[d.value]], DecodeInline(fs, m')))
            && (d.status != Done && d.status != EOF ==> r.status != Done || r.elems == [])
  {
    OneField(fs, m);
    PopShrinks(m, fs[0].tag);
    hide DecodeField, Pop, Slots;
  }

  lemma {:induction false} InlineIsOver(fs: seq<Field>, m: Buckets)
    requires |fs| == 1 && IsRequiredScalar(fs[0]) && fs[0].tag !in m
    ensures DecodeInline(fs, m) == ListResult(Done, [], m)
  {
    Missing(fs[0], m);
    OneField(fs, m);
  }

  lemma {:induction false} InlineExactly(fs: seq<Field>, elems: seq<seq<Value>>, m: Buckets)
    requires |fs| == 1 && IsSingle(fs[0]) && FieldRegular(fs[0]) && elems != []
    requires forall i :: 0 <= i < |elems| ==> HaveTypes(fs, elems[i])
    requires fs[0].tag in m && m[fs[0].tag] == InlinePayloads(fs, elems)
    requires !IsRequiredScalar(fs[0]) ==> m.Keys == {fs[0].tag}
    ensures var r := DecodeInline(fs, m);
            && (r.status == Done && r.elems == elems <==> SinglesExact(fs, elems))
            && (r.status == Done && r.elems == elems ==> r.rest == m - {fs[0].tag})
    decreases fs, 2, |elems|
  {
    hide DecodeField, DecodeInline, Payload, FieldExact, FieldRegular, Pop, HasType;
    var g, e, tag := fs[0], elems[0], fs[0].tag;
    var d, m' := DecodeField(g, m), Pop(m, tag);
    assert HaveTypes(fs, e) && m[tag][0] == ElementPayload(fs, e);
    HeadExactly(g, e[0], m);
    InlineStep(fs, m);
    PopLast(m, tag);
    assert InlinePayloads(fs, elems)[1..] == InlinePayloads(fs, elems[1..]);
    assert e == [e[0]] && elems == [e] + elems[1..];
    if elems[1..] != [] {
      assert !IsRequiredScalar(g) ==> m'.Keys == {tag} by { PopKeys(m, tag); }
      InlineExactly(fs, elems[1..], m');
      var r := DecodeInline(fs, m');
      assert ([[d.value]] + r.elems)[0] == [d.value] && ([[d.value]] + r.elems)[1..] == r.elems;
    } else if m' != map[] {
      assert IsRequiredScalar(g) by { PopKeys(m, tag); }
      InlineIsOver(fs, m');
      assert [[d.value]] + [] == [[d.value]];
    }
  }

  lemma {:induction false} PopKeys(m: Buckets, tag: byte)
    requires tag in m
    ensures |m[tag]| > 1 ==> Pop(m, tag).Keys == m.Keys
    ensures |m[tag]| == 1 && m.Keys == {tag} ==> Pop(m, tag) == map[]
  {
    if |m[tag]| == 1 && m.Keys == {tag} {
      assert Pop(m, tag).Keys == {};
    }
  }

  /** Every iteration takes a bucket while there is one. */
  lemma {:induction false} DecodedInlineLength(fs: seq<Field>, m: Buckets)
    requires |fs| == 1 && IsSingle(fs[0]) && fs[0].tag in m
    requires !IsRequiredScalar(fs[0]) ==> m.Keys == {fs[0].tag}
    ensures |DecodeInline(fs, m).elems| <= |m[fs[0].tag]|
    decreases |m[fs[0].tag]|
  {
    var g, m' := fs[0], Pop(m, fs[0].tag);
    OneField(fs, m);
    PopShrinks(m, g.tag);
    PopKeys(m, g.tag);
    assert DecodeField(g, m).rest == m';
    if |m[g.tag]| > 1 {
      DecodedInlineLength(fs, m');
    } else if IsRequiredScalar(g) && m' != map[] {
      InlineIsOver(fs, m');
    }
  }

  // ---- Every field ----

  lemma {:induction false} ListFieldExactly(f: Field, v: Value, m: Buckets)
    requires f.kind.List? && FieldRegular(f) && HasType(f, v)
    requires Holds(m, f.tag, QueueOf(f, v))
    requires forall i :: 0 <= i < |v.elems| ==> Known(f.kind.fields, v.elems[i])
    ensures var d := DecodeField(f, m);
            && (d.status == Done && d.value == v <==> FieldExact(f, v, m - {f.tag} == map[]))
            && (d.status == Done && d.value == v ==> d.rest == m - {f.tag})
            && !(d.status == EOF && d.value == v)
  {
    var fs, elems := f.kind.fields, v.elems;
    var ps := Encodings(fs, elems);
    assert DecodeField(f, m) == FromList(DecodeList(f.tag, fs, m));
    hide DecodeField, DecodeList, Encode, Exact, Partial, HaveTypes, Regular, DecodeBytes, Known, Kept;
    SeparableKept(ps);
    if f.tag !in m {
      assert m - {f.tag} == m;
      ListIsOver(f.tag, fs, m);
    } else if Separable(ps) {
      ListExactly(f.tag, fs, elems, m);
    } else {
      DecodedListLength(f.tag, fs, m);
    }
  }

  /** Without a required scalar the loop does not end normally while another tag is
      left. */
  lemma {:induction false} ForeignTagSticks(fs: seq<Field>, m: Buckets, t: byte)
    requires |fs| == 1 && IsSingle(fs[0]) && !IsRequiredScalar(fs[0]) && t in m && t != fs[0].tag
    ensures DecodeInline(fs, m).status != Done
    decreases Slots(m)
  {
    var g := fs[0];
    OneField(fs, m);
    if g.tag in m {
      PopShrinks(m, g.tag);
      assert DecodeField(g, m).rest == Pop(m, g.tag) && t in Pop(m, g.tag);
      assert DecodeField(g, m).status != EOF;
      ForeignTagSticks(fs, Pop(m, g.tag), t);
    } else {
      Missing(g, m);
    }
  }

  lemma {:induction false} InlineFieldExactly(f: Field, v: Value, m: Buckets)
    requires f.kind.Inline? && FieldRegular(f) && HasType(f, v)
    requires Holds(m, KeyTag(f), QueueOf(f, v))
    ensures var d := DecodeField(f, m);
            && (d.status == Done && d.value == v <==> FieldExact(f, v, m - {KeyTag(f)} == map[]))
            && (d.status == Done && d.value == v ==> d.rest == m - {KeyTag(f)})
            && d.status != EOF
    decreases f, 3
  {
    var fs, elems, tag := f.kind.fields, v.elems, KeyTag(f);
    var ps := InlinePayloads(fs, elems);
    assert DecodeField(f, m) == FromList(DecodeInline(fs, m));
    InlineNeverEof(fs, m);
    hide DecodeField, DecodeInline, Encode, Exact, FieldRegular, Payload, Kept;
    SeparableKept(ps);
    if OpenEnded(f) && m - {tag} != map[] {
      var t :| t in m - {tag};
      ForeignTagSticks(fs, m, t);
    } else if tag in m {
      assert OpenEnded(f) ==> m.Keys == {tag} by { OnlyKey(m, tag); }
      if Separable(ps) {
        InlineExactly(fs, elems, m);
      } else {
        DecodedInlineLength(fs, m);
        assert |elems| != 1;
      }
    } else {
      assert m - {tag} == m;
      NoElements(f, m);
      NothingRead(fs, elems, m);
    }
  }

  lemma {:induction false} OnlyKey(m: Buckets, tag: byte)
    requires tag in m
    ensures m - {tag} == map[] ==> m.Keys == {tag}
  {
    if m - {tag} == map[] {
      forall t | t in m
        ensures t == tag
      {
        assert t != tag ==> t in m - {tag};
      }
    }
  }

  /** An inline list that has left no bucket. */
  lemma {:induction false} NothingRead(fs: seq<Field>, elems: seq<seq<Value>>, m: Buckets)
    requires |fs| == 1 && IsSingle(fs[0]) && FieldRegular(fs[0])
    requires forall i :: 0 <= i < |elems| ==> HaveTypes(fs, elems[i])
    requires Kept([], InlinePayloads(fs, elems)) == [] && fs[0].tag !in m
    ensures elems == (if IsRequiredScalar(fs[0]) then [] else [[ZeroOf(fs[0])]])
            <==> && (elems != [] || IsRequiredScalar(fs[0]))
                 && (|elems| == 1 || Separable(InlinePayloads(fs, elems)))
                 && SinglesExact(fs, elems)
  {
    var g, ps := fs[0], InlinePayloads(fs, elems);
    SeparableKept(ps);
    if |elems| == 1 {
      var e := elems[0];
      assert HaveTypes(fs, e) && ps[0] == ElementPayload(fs, e);
      assert Kept(KeptOne([], ps[0]), ps[1..]) == Kept([], ps) && ps[1..] == [];
      MissingExactly(g, e[0], m);
      hide FieldExact, Kept, FieldRegular;
      assert e == [e[0]] && elems == [e] && elems[1..] == [];
      assert SinglesExact(fs, elems) <==> FieldExact(g, e[0], true);
      assert elems == [[ZeroOf(g)]] <==> e[0] == ZeroOf(g) by { assert elems[0][0] == e[0]; }
    }
  }

  lemma {:induction false} FieldExactly(f: Field, v: Value, m: Buckets)
    requires HasType(f, v) && FieldRegular(f)
    requires Holds(m, KeyTag(f), QueueOf(f, v))
    ensures var d := DecodeField(f, m);
            && (d.status == Done && d.value == v <==> FieldExact(f, v, m - {KeyTag(f)} == map[]))
            && (d.status == Done && d.value == v ==> d.rest == m - {KeyTag(f)})
            && (d.status == EOF && d.value == v <==> Lacks(f, v))
    decreases f, 4
  {
    hide DecodeField, FieldExact, QueueOf, Payload;
    match f.kind
    case Scalar(_) =>
      SingleExactly(f, v, m);
      AloneMatters(f, v, m - {f.tag} == map[]);
    case Struct(_) =>
      SingleExactly(f, v, m);
      AloneMatters(f, v, m - {f.tag} == map[]);
    case Pointer(_) =>
      SingleExactly(f, v, m);
      AloneMatters(f, v, m - {f.tag} == map[]);
    case List(fs) =>
      forall i | 0 <= i < |v.elems|
        ensures Known(fs, v.elems[i])
      {
        ExactBytes(fs, v.elems[i]);
      }
      ListFieldExactly(f, v, m);
    case Inline(_) => InlineFieldExactly(f, v, m);
  }

  lemma {:induction false} FieldsStep(fs: seq<Field>, m: Buckets, vs: seq<Value>)
    requires |fs| == |vs| && fs != []
    ensures var d, all := DecodeField(fs[0], m), DecodeFields(fs, m);
            var r := DecodeFields(fs[1..], d.rest);
            && (d.status == Done ==> all == r.(vals := [d.value] + r.vals))
            && (d.status != Done ==> all == Result(d.status, [d.value] + Zeros(fs[1..]), d.rest))
            && ([d.value] + r.vals == vs <==> d.value == vs[0] && r.vals == vs[1..])
            && ([d.value] + Zeros(fs[1..]) == vs <==> d.value == vs[0] && Zeros(fs[1..]) == vs[1..])
  {
    hide DecodeField, Zeros;
  }

  lemma {:induction false} FieldsExactly(fs: seq<Field>, vs: seq<Value>)
    requires HaveTypes(fs, vs) && Regular(fs)
    ensures var d := DecodeFields(fs, Queues(fs, vs));
            && (d.status == Done && d.vals == vs <==> Exact(fs, vs))
            && (d.status == EOF && d.vals == vs <==> Partial(fs, vs))
            && (d.status == Done && d.vals == vs ==> d.rest == map[])
    decreases fs, 0
  {
    assert fs == [] ==> DecodeFields(fs, map[]) == Result(Done, [], map[]);
    hide DecodeField, DecodeFields, FieldExact, HasType, FieldRegular, QueueOf, Lacks, Zeros;
    if fs != [] {
      var r := Queues(fs[1..], vs[1..]);
      QueuesKeys(fs[1..], vs[1..]);
      PutRemove(r, KeyTag(fs[0]), QueueOf(fs[0], vs[0]));
      FieldExactly(fs[0], vs[0], Queues(fs, vs));
      FieldsStep(fs, Queues(fs, vs), vs);
      FieldsExactly(fs[1..], vs[1..]);
    }
  }

  lemma {:induction false} ExactBytes(fs: seq<Field>, vs: seq<Value>)
    requires HaveTypes(fs, vs) && Regular(fs)
    ensures Known(fs, vs)
    decreases fs, 1
  {
    hide Encode, Queues, DecodeFields, Exact, Partial;
    ReadEncoding(fs, vs);
    FieldsExactly(fs, vs);
  }

  /** The round trip. For every regular schema and every value of it: decoding the
      encoding gives back exactly that value and leaves nothing, if and only if the value
      is `Exact`; and it meets the end-of-file error with that value set if and only if
      the value is `Partial`. */
  lemma {:induction false} ExactRoundTrip(fs: seq<Field>, vs: seq<Value>)
    requires HaveTypes(fs, vs) && Regular(fs)
    ensures var d := DecodeBytes(fs, Encode(fs, vs));
            && (d == Result(Done, vs, map[]) <==> Exact(fs, vs))
            && (d.status == EOF && d.vals == vs <==> Partial(fs, vs))
  {
    ExactBytes(fs, vs);
  }

  // ---- Schemas without lists ----

  predicate ListFree(fs: seq<Field>)
    decreases fs
  {
    fs != [] ==> FieldListFree(fs[0]) && ListFree(fs[1..])
  }

  predicate FieldListFree(f: Field)
    decreases f
  {
    match f.kind
    case Scalar(_) => true
    case Struct(fs) => ListFree(fs)
    case Pointer(fs) => ListFree(fs)
    case List(_) => false
    case Inline(_) => false
  }

  lemma {:induction false} ListFreeFieldEnds(f: Field, v: Value, m: Buckets)
    requires HasType(f, v) && FieldRegular(f) && FieldListFree(f)
    requires Holds(m, f.tag, QueueOf(f, v))
    ensures var d := DecodeField(f, m);
            && (d.status == Done || d.status == EOF) && d.rest == m - {f.tag}
            && (v == ZeroOf(f) ==> d.value == v)
    decreases f, 0
  {
    SingleQueue(f, v);
    SingleExactly(f, v, m);
    match f.kind
    case Scalar(l) => LeafRoundTrip(l, v);
    case Struct(fs) => ListFreeEnds(fs, v.vals);
    case Pointer(fs) =>
      if v.Ref? {
        ListFreeEnds(fs, v.vals);
      }
  }

  lemma {:induction false} ListFreeFieldsEnd(fs: seq<Field>, vs: seq<Value>)
    requires HaveTypes(fs, vs) && Regular(fs) && ListFree(fs)
    ensures var d := DecodeFields(fs, Queues(fs, vs));
            && (d.status == Done || d.status == EOF) && (d.status == Done ==> d.rest == map[])
            && (vs == Zeros(fs) ==> d.vals == vs)
    decreases fs, 0
  {
    assert fs == [] ==> DecodeFields(fs, map[]) == Result(Done, [], map[]);
    hide DecodeField, DecodeFields, HasType, FieldRegular, FieldListFree, QueueOf;
    if fs != [] {
      QueuesKeys(fs[1..], vs[1..]);
      PutRemove(Queues(fs[1..], vs[1..]), KeyTag(fs[0]), QueueOf(fs[0], vs[0]));
      assert KeyTag(fs[0]) == fs[0].tag by { SingleTag(fs[0]); }
      ListFreeFieldEnds(fs[0], vs[0], Queues(fs, vs));
      FieldsStep(fs, Queues(fs, vs), vs);
      ListFreeFieldsEnd(fs[1..], vs[1..]);
    }
  }

  lemma {:induction false} SingleTag(f: Field)
    requires FieldListFree(f)
    ensures KeyTag(f) == f.tag
  {
  }

  /** Without lists, decoding what was encoded ends normally or with the end-of-file
      error, uses up the input if it ends normally, and sets a zero value right. */
  lemma {:induction false} ListFreeEnds(fs: seq<Field>, vs: seq<Value>)
    requires HaveTypes(fs, vs) && Regular(fs) && ListFree(fs)
    ensures var d := DecodeBytes(fs, Encode(fs, vs));
            && (d.status == Done || d.status == EOF) && (d.status == Done ==> d.rest == map[])
            && (vs == Zeros(fs) ==> d.vals == vs)
    decreases fs, 1
  {
    hide Encode, Queues, DecodeFields;
    ReadEncoding(fs, vs);
    ListFreeFieldsEnd(fs, vs);
  }

  // ---- Structs of one field ----

  lemma {:induction false} OneFieldExact(f: Field, v: Value)
    requires HasType(f, v) && FieldRegular(f)
    ensures HaveTypes([f], [v]) && Regular([f])
    ensures Exact([f], [v]) <==> FieldExact(f, v, true)
  {
    assert HaveTypes([f][1..], [v][1..]) && Regular([f][1..]) && Queues([f][1..], [v][1..]) == map[];
    assert Exact([f][1..], [v][1..]);
  }

  /** A struct holding one named list whose elements survive on their own comes
      back if and only if every element encodes to something and all but the
      first to at most 255 bytes; otherwise elements are lost. */
  lemma {:induction false} NamedListRoundTrip(f: Field, elems: seq<seq<Value>>)
    requires f.kind.List? && FieldRegular(f) && HasType(f, Many(elems))
    requires forall i :: 0 <= i < |elems| ==> Exact(f.kind.fields, elems[i])
    ensures HaveTypes([f], [Many(elems)])
    ensures DecodeBytes([f], Encode([f], [Many(elems)])) == Result(Done, [Many(elems)], map[])
            <==> Separable(Encodings(f.kind.fields, elems))
  {
    hide Encode, DecodeBytes, Exact, Partial;
    OneFieldExact(f, Many(elems));
    ExactRoundTrip([f], [Many(elems)]);
    AllExact(f.kind.fields, elems);
  }

  lemma {:induction false} AllExact(fs: seq<Field>, elems: seq<seq<Value>>)
    requires Regular(fs) && forall i :: 0 <= i < |elems| ==> HaveTypes(fs, elems[i]) && Exact(fs, elems[i])
    ensures forall alone :: ElementsExact(fs, elems, alone)
    decreases |elems|
  {
    hide Exact, Partial;
    if elems != [] {
      AllExact(fs, elems[1..]);
    }
  }

  /** A struct holding one inline list of one-field elements that survive on their own
      comes back if and only if: the field is a required scalar and the payloads are
      separable; or it is another scalar, a struct or a pointer, and there is exactly
      one element, or more than one with separable payloads. An empty list of the
      second kind comes back as one zero element. */
  lemma {:induction false} InlineListRoundTrip(f: Field, elems: seq<seq<Value>>)
    requires f.kind.Inline? && FieldRegular(f) && HasType(f, Many(elems))
    requires forall i :: 0 <= i < |elems| ==> ElementExact(f.kind.fields, elems[i])
    ensures HaveTypes([f], [Many(elems)])
    ensures var ps := InlinePayloads(f.kind.fields, elems);
            DecodeBytes([f], Encode([f], [Many(elems)])) == Result(Done, [Many(elems)], map[])
            <==> if OpenEnded(f) then |elems| == 1 || (|elems| > 1 && Separable(ps)) else Separable(ps)
  {
    hide Encode, DecodeBytes, Exact, ElementExact;
    var fs := f.kind.fields;
    OneFieldExact(f, Many(elems));
    ExactRoundTrip([f], [Many(elems)]);
    AllSinglesExact(fs, elems);
    if !OpenEnded(f) && |elems| == 1 {
      RequiredIsWritten(fs, elems[0]);
      assert InlinePayloads(fs, elems)[0] == ElementPayload(fs, elems[0]);
    }
  }

  lemma {:induction false} RequiredIsWritten(fs: seq<Field>, e: seq<Value>)
    requires |fs| == 1 && IsRequiredScalar(fs[0]) && HaveTypes(fs, e) && ElementExact(fs, e)
    ensures ElementPayload(fs, e) != []
  {
  }

  lemma {:induction false} AllSinglesExact(fs: seq<Field>, elems: seq<seq<Value>>)
    requires |fs| == 1 && IsSingle(fs[0]) && FieldRegular(fs[0])
    requires forall i :: 0 <= i < |elems| ==> HaveTypes(fs, elems[i]) && ElementExact(fs, elems[i])
    ensures SinglesExact(fs, elems)
    decreases |elems|
  {
    hide ElementExact;
    if elems != [] {
      AllSinglesExact(fs, elems[1..]);
    }
  }

  /** A single int64 field comes back if and only if it fits 32 bits. */
  lemma {:induction false} Int64RoundTrip(tag: byte, n: int)
    requires FitsSigned(n, 8)
    ensures var f := Field(tag, false, Scalar(Signed(8)));
            HaveTypes([f], [Num(n)])
            && (DecodeBytes([f], Encode([f], [Num(n)])) == Result(Done, [Num(n)], map[])
                <==> -0x8000_0000 <= n < 0x8000_0000)
  {
    var f := Field(tag, false, Scalar(Signed(8)));
    OneFieldExact(f, Num(n));
    ExactRoundTrip([f], [Num(n)]);
    SignedRoundTripLeaf(8, n);
    assert Pow256(4) == 0x1_0000_0000;
  }

  /** Reordering the items of a delimiter-free message, keeping the order of
      equal tags, does not change what it decodes to. */
  lemma {:induction false} ReorderedItemsDecodeAlike(fs: seq<Field>, xs: seq<Item>, ys: seq<Item>)
    requires DelimiterFree(xs) && DelimiterFree(ys)
    requires forall tag :: Select(xs, tag) == Select(ys, tag)
    ensures DecodeBytes(fs, Serialize(xs)) == DecodeBytes(fs, Serialize(ys))
  {
    ReorderDelimiterFree(xs, ys);
  }
}
