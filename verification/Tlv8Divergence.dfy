/** Exactly which schemas can be made to decode for ever, or to panic. */
module Tlv8Divergence {
  import opened Bytes
  import opened Tlv8Format
  import opened Tlv8Schema
  import opened Tlv8Termination

  // ---- Tags of one level ----

  /** The tags that a struct's fields take from its own reader; the elements of an
      inline list take theirs from the same reader. */
  function LevelTags(fs: seq<Field>): set<byte>
    decreases fs
  {
    if fs == [] then {} else FieldTags(fs[0]) + LevelTags(fs[1..])
  }

  function FieldTags(f: Field): set<byte>
    decreases f
  {
    match f.kind
    case Scalar(_) => {f.tag}
    case Struct(_) => {f.tag}
    case Pointer(_) => {f.tag}
    case List(_) => {f.tag}
    case Inline(fs) => LevelTags(fs)
  }

  /** On every level no tag is used twice, and `spare` is not used at all. */
  predicate Distinct(fs: seq<Field>, spare: byte)
    decreases fs
  {
    fs != [] ==>
      && FieldTags(fs[0]) !! LevelTags(fs[1..])
      && FieldDistinct(fs[0], spare)
      && Distinct(fs[1..], spare)
  }

  predicate FieldDistinct(f: Field, spare: byte)
    decreases f
  {
    && spare !in FieldTags(f)
    && match f.kind
       case Scalar(_) => true
       case Struct(fs) => Distinct(fs, spare)
       case Pointer(fs) => Distinct(fs, spare)
       case List(fs) => Distinct(fs, spare)
       case Inline(fs) => Distinct(fs, spare)
  }

  lemma {:induction false} SpareOutside(fs: seq<Field>, spare: byte)
    requires Distinct(fs, spare)
    ensures spare !in LevelTags(fs)
    decreases fs
  {
    if fs != [] {
      SpareOutside(fs[1..], spare);
    }
  }

  // ---- Fields that find nothing ----

  /** A productive field none of whose tags is left takes nothing: a required scalar
      ends with the end-of-file error, every other field is done. */
  lemma {:induction false} AbsentField(f: Field, m: Buckets)
    requires FieldProductive(f) && FieldTags(f) !! m.Keys
    ensures var d := DecodeField(f, m);
            d.rest == m && d.status == if f.kind.Scalar? && !f.optional then EOF else Done
    decreases f, 0
  {
    match f.kind
    case Scalar(_) =>
    case Struct(_) =>
    case Pointer(_) =>
    case List(_) =>
    case Inline(fs) => AbsentFields(fs, m);
  }

  lemma {:induction false} AbsentFields(fs: seq<Field>, m: Buckets)
    requires Productive(fs) && LevelTags(fs) !! m.Keys
    ensures var d := DecodeFields(fs, m);
            d.rest == m && d.status == if HasRequiredLeaf(fs) then EOF else Done
    decreases fs, 0
  {
    if fs != [] {
      AbsentField(fs[0], m);
      AbsentFields(fs[1..], m);
      RequiredLeafSplit(fs);
    }
  }

  lemma {:induction false} RequiredLeafSplit(fs: seq<Field>)
    requires fs != []
    ensures HasRequiredLeaf(fs) <==> (fs[0].kind.Scalar? && !fs[0].optional) || HasRequiredLeaf(fs[1..])
  {
    if HasRequiredLeaf(fs[1..]) {
      var i :| 0 <= i < |fs[1..]| && fs[1..][i].kind.Scalar? && !fs[1..][i].optional;
      assert fs[i + 1].kind.Scalar? && !fs[i + 1].optional;
    }
    if i :| 0 < i < |fs| && fs[i].kind.Scalar? && !fs[i].optional {
      assert fs[1..][i - 1] == fs[i];
    }
  }

  // ---- From buckets to bytes ----

  /** Every tag has one bucket. */
  predicate OneEach(m: Buckets) {
    forall t :: t in m ==> |m[t]| == 1
  }

  lemma {:induction false} OneBucketMore(m: Buckets, t: byte, before: seq<Item>)
    requires t in m && |m[t]| == 1 && Fold(before, map[], false) == (m - {t}, false)
    ensures Fold(before + Fragments(t, m[t][0]), map[], false) == (m, false)
  {
    hide Fold, Fragments;
    FoldAppend(before, Fragments(t, m[t][0]), map[], false);
    FragmentsFold(t, m[t][0], m - {t}, false);
    assert [] + m[t][0] == m[t][0];
    assert m[t] == [m[t][0]];
    assert (m - {t})[t := m[t]] == m;
  }

  /** Such a map is what the reader makes of some bytes. */
  lemma {:induction false} SomeBytes(m: Buckets) returns (items: seq<Item>)
    requires OneEach(m)
    ensures Fold(items, map[], false) == (m, false)
    ensures ReadAll(Serialize(items)) == Parsed(m)
    decreases |m.Keys|
  {
    if m == map[] {
      items := [];
      assert Fold(items, map[], false) == (m, false);
    } else {
      var t :| t in m;
      assert (m - {t}).Keys == m.Keys - {t};
      items := SomeBytes(m - {t});
      OneBucketMore(m, t, items);
      items := items + Fragments(t, m[t][0]);
    }
    hide Fold, Serialize;
    ReadSerialized(items, map[], false);
  }

  /** Bytes for one bucket of a nested struct. */
  lemma {:induction false} Nested(fs: seq<Field>, m: Buckets) returns (b: seq<byte>)
    requires OneEach(m) && m != map[]
    ensures b != [] && DecodeBytes(fs, b) == DecodeFields(fs, m)
  {
    var items := SomeBytes(m);
    b := Serialize(items);
  }

  // ---- Schemas that can diverge ----

  /** Buckets over the tags of a struct, and the spare one, on which decoding ends
      with `status`. */
  ghost predicate Ends(fs: seq<Field>, m: Buckets, spare: byte, status: Status) {
    && OneEach(m) && m != map[] && m.Keys <= LevelTags(fs) + {spare}
    && DecodeFields(fs, m).status == status
  }

  ghost predicate FieldEnds(f: Field, m: Buckets, spare: byte, status: Status) {
    && OneEach(m) && m != map[] && m.Keys <= FieldTags(f) + {spare}
    && DecodeField(f, m).status == status
  }

  /** What stops a later field stops the struct: the fields before it are productive,
      find what they require and leave the rest alone. */
  lemma {:induction false} Behind(fs: seq<Field>, m: Buckets, spare: byte, status: Status) returns (m': Buckets)
    requires fs != [] && Distinct(fs, spare) && FieldProductive(fs[0])
    requires Ends(fs[1..], m, spare, status) && status != Done
    ensures Ends(fs, m', spare, status)
  {
    var f := fs[0];
    assert FieldTags(f) !! m.Keys;
    if f.kind.Scalar? && !f.optional {
      m' := m[f.tag := [[0, 0, 0, 0]]];
      assert Pop(m', f.tag) == m;
      assert DecodeField(f, m').status == Done && DecodeField(f, m').rest == m;
    } else {
      AbsentField(f, m);
      m' := m;
    }
  }

  /** What stops a nested struct stops the field that holds it, unless it is the
      end-of-file error. */
  lemma {:induction false} Inside(f: Field, fs: seq<Field>, m: Buckets, spare: byte, status: Status)
    returns (m': Buckets)
    requires f.kind == Struct(fs) || f.kind == Pointer(fs) || f.kind == List(fs)
    requires Ends(fs, m, spare, status) && (status == Panic || status == Diverge)
    ensures FieldEnds(f, m', spare, status)
  {
    var b := Nested(fs, m);
    m' := map[f.tag := [b]];
    var d := DecodeBytes(fs, b);
    assert d.status == status;
    match f.kind
    case Scalar(_) =>
    case Struct(_) => assert DecodeField(f, m') == DecodeNested(f, fs, m');
    case Pointer(_) => assert DecodeField(f, m') == DecodeNested(f, fs, m');
    case List(_) =>
      assert DecodeField(f, m') == FromList(DecodeList(f.tag, fs, m'));
      assert ReadAll(b).Parsed?;
    case Inline(_) =>
  }

  /** A schema that is not productive has buckets on which decoding diverges. */
  lemma {:induction false} SomeBucketsDiverge(fs: seq<Field>, spare: byte) returns (m: Buckets)
    requires Distinct(fs, spare) && !Productive(fs)
    ensures Ends(fs, m, spare, Diverge)
    decreases fs, 0
  {
    if !FieldProductive(fs[0]) {
      m := FieldDiverges(fs[0], spare);
    } else {
      var later := SomeBucketsDiverge(fs[1..], spare);
      m := Behind(fs, later, spare, Diverge);
    }
  }

  lemma {:induction false} FieldDiverges(f: Field, spare: byte) returns (m: Buckets)
    requires FieldDistinct(f, spare) && !FieldProductive(f)
    ensures FieldEnds(f, m, spare, Diverge)
    decreases f, 0
  {
    match f.kind
    case Struct(fs) =>
      var inner := SomeBucketsDiverge(fs, spare);
      m := Inside(f, fs, inner, spare, Diverge);
    case Pointer(fs) =>
      var inner := SomeBucketsDiverge(fs, spare);
      m := Inside(f, fs, inner, spare, Diverge);
    case List(fs) =>
      var inner := SomeBucketsDiverge(fs, spare);
      m := Inside(f, fs, inner, spare, Diverge);
    case Inline(fs) =>
      if !Productive(fs) {
        m := SomeBucketsDiverge(fs, spare);
      } else {
        m := map[spare := [[0]]];
        SpareOutside(fs, spare);
        AbsentFields(fs, m);
        assert !HasRequiredLeaf(fs) && DecodeFields(fs, m).status == Done && DecodeFields(fs, m).rest == m;
        assert spare in m && m != map[];
        assert DecodeField(f, m) == FromList(DecodeInline(fs, m));
      }
  }

  /** For schemas with distinct tags on every level and a spare tag: decoding ends on
      every input if and only if every inline list has elements with a required
      scalar field of their own. */
  lemma {:induction false} DivergesIff(fs: seq<Field>, spare: byte)
    requires Distinct(fs, spare)
    ensures (forall b :: DecodeBytes(fs, b).status != Diverge) <==> Productive(fs)
  {
    if Productive(fs) {
      forall b
        ensures DecodeBytes(fs, b).status != Diverge
      {
        DecodingEnds(fs, b);
      }
    } else {
      var m := SomeBucketsDiverge(fs, spare);
      var b := Nested(fs, m);
      assert DecodeBytes(fs, b).status == Diverge;
    }
  }

  // ---- Schemas that can panic ----

  lemma {:induction false} SomeBucketsPanic(fs: seq<Field>, spare: byte) returns (m: Buckets)
    requires Distinct(fs, spare) && Productive(fs) && !FloatFree(fs)
    ensures Ends(fs, m, spare, Panic)
    decreases fs, 0
  {
    if !FieldFloatFree(fs[0]) {
      m := FieldPanics(fs[0], spare);
    } else {
      var later := SomeBucketsPanic(fs[1..], spare);
      m := Behind(fs, later, spare, Panic);
    }
  }

  lemma {:induction false} FieldPanics(f: Field, spare: byte) returns (m: Buckets)
    requires FieldDistinct(f, spare) && FieldProductive(f) && !FieldFloatFree(f)
    ensures FieldEnds(f, m, spare, Panic)
    decreases f, 0
  {
    match f.kind
    case Scalar(l) =>
      m := map[f.tag := [[0]]];
      assert m[f.tag][0] == [0] && !LeafReadable(l, [0]);
      assert DecodeField(f, m) == DecodeLeaf(f, l, m);
    case Struct(fs) =>
      var inner := SomeBucketsPanic(fs, spare);
      m := Inside(f, fs, inner, spare, Panic);
    case Pointer(fs) =>
      var inner := SomeBucketsPanic(fs, spare);
      m := Inside(f, fs, inner, spare, Panic);
    case List(fs) =>
      var inner := SomeBucketsPanic(fs, spare);
      m := Inside(f, fs, inner, spare, Panic);
    case Inline(fs) =>
      m := SomeBucketsPanic(fs, spare);
      assert DecodeField(f, m) == FromList(DecodeInline(fs, m));
  }

  /** Among these schemas, of those that always end, the ones that never read out of
      bounds are exactly those without float32 fields. */
  lemma {:induction false} PanicsIff(fs: seq<Field>, spare: byte)
    requires Distinct(fs, spare) && Productive(fs)
    ensures (forall b :: DecodeBytes(fs, b).status != Panic) <==> FloatFree(fs)
  {
    if FloatFree(fs) {
      forall b
        ensures DecodeBytes(fs, b).status != Panic
      {
        DecodingEnds(fs, b);
      }
    } else {
      var m := SomeBucketsPanic(fs, spare);
      var b := Nested(fs, m);
      assert DecodeBytes(fs, b).status == Panic;
    }
  }

  // ---- A required struct does not help ----

  const STRUCT_ELEMENTS :=
    [Field(0, false, Inline([Field(2, false, Struct([Field(1, false, Scalar(Unsigned(1)))]))]))]

  /** An element whose only required field is a nested struct does not end the loop:
      a missing struct is no error. One item of another tag suffices. */
  lemma {:induction false} RequiredStructDiverges()
    ensures DecodeBytes(STRUCT_ELEMENTS, [5, 1, 0]).status == Diverge
  {
    var inner := Field(2, false, Struct([Field(1, false, Scalar(Unsigned(1)))]));
    var m: Buckets := map[5 := [[0]]];
    var bs: seq<byte> := [5, 1, 0];
    assert bs[2..3] == [0] && bs[3..] == [];
    assert ReadAll(bs) == Parsed(m);
    assert [inner][1..] == [] && DecodeField(inner, m).status == Done && DecodeField(inner, m).rest == m;
    assert DecodeFields([inner], m).status == Done && DecodeFields([inner], m).rest == m;
    assert DecodeInline([inner], m).status == Diverge;
    assert STRUCT_ELEMENTS[0].kind == Inline([inner]);
  }
}
