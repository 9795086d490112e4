/** Decoding arbitrary input: what it may consume, when it ends, when it panics. */
module Tlv8Termination {
  import opened Bytes
  import opened Tlv8Format
  import opened Tlv8Schema

  /** The reader only loses buckets, and loses them from the front. */
  ghost predicate Suffix(r: Buckets, m: Buckets) {
    forall t :: t in r ==> t in m && |r[t]| <= |m[t]| && r[t] == m[t][|m[t]| - |r[t]|..]
  }

  /** An element struct with a required scalar field of its own: its decoding cannot
      succeed without taking a bucket. */
  predicate HasRequiredLeaf(fs: seq<Field>) {
    exists i :: 0 <= i < |fs| && fs[i].kind.Scalar? && !fs[i].optional
  }

  /** Every inline list, on any level, has elements with a required scalar field. */
  predicate Productive(fs: seq<Field>)
    decreases fs
  {
    fs != [] ==> FieldProductive(fs[0]) && Productive(fs[1..])
  }

  predicate FieldProductive(f: Field)
    decreases f
  {
    match f.kind
    case Scalar(_) => true
    case Struct(fs) => Productive(fs)
    case Pointer(fs) => Productive(fs)
    case List(fs) => Productive(fs)
    case Inline(fs) => Productive(fs) && HasRequiredLeaf(fs)
  }

  predicate FloatFree(fs: seq<Field>)
    decreases fs
  {
    fs != [] ==> FieldFloatFree(fs[0]) && FloatFree(fs[1..])
  }

  predicate FieldFloatFree(f: Field)
    decreases f
  {
    match f.kind
    case Scalar(l) => !l.Float32?
    case Struct(fs) => FloatFree(fs)
    case Pointer(fs) => FloatFree(fs)
    case List(fs) => FloatFree(fs)
    case Inline(fs) => FloatFree(fs)
  }

  lemma {:induction false} PopSuffix(m: Buckets, tag: byte)
    requires tag in m
    ensures Suffix(Pop(m, tag), m)
  {
  }

  lemma {:induction false} SuffixReflexive(m: Buckets)
    ensures Suffix(m, m)
  {
  }

  lemma {:induction false} SuffixTransitive(a: Buckets, b: Buckets, c: Buckets)
    requires Suffix(a, b) && Suffix(b, c)
    ensures Suffix(a, c)
  {
    forall t | t in a
      ensures t in c && |a[t]| <= |c[t]| && a[t] == c[t][|c[t]| - |a[t]|..]
    {
      assert t in b && t in c;
      assert b[t] == c[t][|c[t]| - |b[t]|..];
    }
  }

  lemma {:induction false} SuffixSlots(r: Buckets, m: Buckets)
    requires Suffix(r, m)
    ensures Slots(r) <= Slots(m)
  {
    forall s | s in Slots(r)
      ensures s in Slots(m)
    {
      assert s.0 in r && s.0 in m;
    }
  }

  lemma {:induction false} SuffixDifference(r: Buckets, m: Buckets) returns (t: byte)
    requires Suffix(r, m) && r != m
    ensures t in m && (t in r ==> |r[t]| < |m[t]|)
  {
    t :| t in m && !(t in r && |r[t]| == |m[t]|);
  }

  /** A step either takes a bucket or leaves the reader exactly as it was. */
  lemma {:induction false} SuffixShrinks(r: Buckets, m: Buckets)
    requires Suffix(r, m)
    ensures Slots(r) <= Slots(m)
    ensures Slots(r) < Slots(m) <==> r != m
  {
    SuffixSlots(r, m);
    if r != m {
      var t := SuffixDifference(r, m);
      var slot := (t, |m[t]| - 1);
      assert slot in Slots(m) && slot !in Slots(r);
    }
  }

  /** What a decoding step guarantees on any input. */
  ghost predicate Sound(m: Buckets, status: Status, rest: Buckets, productive: bool, floatFree: bool) {
    && Suffix(rest, m)
    && (productive ==> status != Diverge)
    && (floatFree ==> status != Panic)
  }

  lemma {:induction false} FieldSound(f: Field, m: Buckets)
    ensures var d := DecodeField(f, m);
            Sound(m, d.status, d.rest, FieldProductive(f), FieldFloatFree(f))
    ensures f.kind.Scalar? && !f.optional && DecodeField(f, m).status == Done ==>
              Slots(DecodeField(f, m).rest) < Slots(m)
    decreases f, 0
  {
    if f.tag in m {
      PopSuffix(m, f.tag);
      PopShrinks(m, f.tag);
    }
    match f.kind
    case Scalar(_) =>
    case Struct(fs) =>
      if f.tag in m {
        BytesSound(fs, m[f.tag][0]);
      }
    case Pointer(fs) =>
      if f.tag in m {
        BytesSound(fs, m[f.tag][0]);
      }
    case List(fs) => ListSound(f.tag, fs, m);
    case Inline(fs) => InlineSound(fs, m);
  }

  lemma {:induction false} BytesSound(fs: seq<Field>, b: seq<byte>)
    ensures var d := DecodeBytes(fs, b);
            && (Productive(fs) ==> d.status != Diverge)
            && (FloatFree(fs) ==> d.status != Panic)
    decreases fs, 1
  {
    if ReadAll(b).Parsed? {
      FieldsSound(fs, ReadAll(b).buckets);
    }
  }

  lemma {:induction false} ListSound(tag: byte, fs: seq<Field>, m: Buckets)
    ensures var d := DecodeList(tag, fs, m);
            Sound(m, d.status, d.rest, Productive(fs), FloatFree(fs))
    decreases fs, 2, Slots(m)
  {
    if tag in m {
      var m' := Pop(m, tag);
      PopSuffix(m, tag);
      PopShrinks(m, tag);
      BytesSound(fs, m[tag][0]);
      ListSound(tag, fs, m');
      ListStep(tag, fs, m);
      SuffixTransitive(DecodeList(tag, fs, m').rest, m', m);
    }
  }

  /** One iteration of the list loop ends the list or goes on after one bucket. */
  lemma {:induction false} ListStep(tag: byte, fs: seq<Field>, m: Buckets)
    requires tag in m
    ensures var r, d, m' := DecodeList(tag, fs, m), DecodeBytes(fs, m[tag][0]), Pop(m, tag);
            (r.rest == m' && (r.status == Done || r.status == d.status))
            || (r.rest == DecodeList(tag, fs, m').rest && r.status == DecodeList(tag, fs, m').status)
  {
  }

  lemma {:induction false} InlineSound(fs: seq<Field>, m: Buckets)
    ensures var d := DecodeInline(fs, m);
            Sound(m, d.status, d.rest, Productive(fs) && HasRequiredLeaf(fs), FloatFree(fs))
    decreases fs, 2, Slots(m)
  {
    FieldsSound(fs, m);
    hide DecodeFields, Productive, HasRequiredLeaf, FloatFree;
    var d := DecodeFields(fs, m);
    if Slots(d.rest) < Slots(m) {
      InlineSound(fs, d.rest);
      SuffixTransitive(DecodeInline(fs, d.rest).rest, d.rest, m);
    }
  }

  lemma {:induction false} FieldsSound(fs: seq<Field>, m: Buckets)
    ensures var d := DecodeFields(fs, m);
            Sound(m, d.status, d.rest, Productive(fs), FloatFree(fs))
    ensures HasRequiredLeaf(fs) && DecodeFields(fs, m).status == Done ==>
              Slots(DecodeFields(fs, m).rest) < Slots(m)
    decreases fs, 0
  {
    hide Suffix, Slots, DecodeField;
    SuffixReflexive(m);
    if fs != [] {
      var d := DecodeField(fs[0], m);
      FieldSound(fs[0], m);
      FieldsSound(fs[1..], d.rest);
      SuffixTransitive(DecodeFields(fs[1..], d.rest).rest, d.rest, m);
      SuffixShrinks(d.rest, m);
      SuffixShrinks(DecodeFields(fs[1..], d.rest).rest, d.rest);
      if HasRequiredLeaf(fs) && !(fs[0].kind.Scalar? && !fs[0].optional) {
        var i :| 0 <= i < |fs| && fs[i].kind.Scalar? && !fs[i].optional;
        assert fs[1..][i - 1] == fs[i];
      }
    }
  }

  /** Decoding ends on every input when each inline list has elements with a required
      scalar field (a required nested struct is not enough), and without float32
      fields no input makes it panic. */
  lemma {:induction false} DecodingEnds(fs: seq<Field>, b: seq<byte>)
    ensures Productive(fs) ==> DecodeBytes(fs, b).status != Diverge
    ensures FloatFree(fs) ==> DecodeBytes(fs, b).status != Panic
  {
    BytesSound(fs, b);
  }

  // ---- The inline loop, run for a bounded number of iterations ----

  datatype Run = Running | Ended(result: ListResult)

  /** `n` iterations of the inline loop; `Running` when it has not ended yet. */
  function InlineRun(fs: seq<Field>, m: Buckets, n: nat): Run
    decreases n
  {
    if n == 0 then Running
    else
      var d := DecodeFields(fs, m);
      if d.status == Diverge then Running
      else if d.status == EOF then Ended(ListResult(Done, [], d.rest))
      else if d.status == Panic then Ended(ListResult(Panic, [], d.rest))
      else
        var e := if d.status == Done then [d.vals] else [];
        if d.rest == map[] then Ended(ListResult(Done, e, d.rest))
        else if d.status != Done then Ended(ListResult(d.status, e, d.rest))
        else
          match InlineRun(fs, d.rest, n - 1)
          case Running => Running
          case Ended(r) => Ended(Prepend(e, r))
  }

  /** `DecodeInline` says how the loop ends, and `Diverge` exactly when it never does. */
  lemma {:induction false} InlineRunsToEnd(fs: seq<Field>, m: Buckets)
    ensures DecodeInline(fs, m).status == Diverge <==> forall n :: InlineRun(fs, m, n) == Running
    ensures DecodeInline(fs, m).status != Diverge ==> exists n :: InlineRun(fs, m, n) == Ended(DecodeInline(fs, m))
  {
    if DecodeInline(fs, m).status == Diverge {
      forall n: nat
        ensures InlineRun(fs, m, n) == Running
      {
        DivergingRun(fs, m, n);
      }
    } else {
      var n := EndingRun(fs, m);
    }
  }

  lemma {:induction false} DivergingRun(fs: seq<Field>, m: Buckets, n: nat)
    requires DecodeInline(fs, m).status == Diverge
    ensures InlineRun(fs, m, n) == Running
    decreases n
  {
    var d := DecodeFields(fs, m);
    if n > 0 && d.status == Done {
      if Slots(d.rest) < Slots(m) {
        DivergingRun(fs, d.rest, n - 1);
      } else {
        FieldsSound(fs, m);
        SuffixShrinks(d.rest, m);
        StuckForever(fs, m, n);
      }
    }
  }

  lemma {:induction false} EndingRun(fs: seq<Field>, m: Buckets) returns (n: nat)
    requires DecodeInline(fs, m).status != Diverge
    ensures InlineRun(fs, m, n) == Ended(DecodeInline(fs, m))
    decreases Slots(m)
  {
    var d := DecodeFields(fs, m);
    if d.status == Done && d.rest != map[] {
      n := EndingRun(fs, d.rest);
      n := n + 1;
    } else {
      n := 1;
    }
  }

  lemma {:induction false} StuckForever(fs: seq<Field>, m: Buckets, n: nat)
    requires var d := DecodeFields(fs, m); d.status == Done && d.rest == m && m != map[]
    ensures InlineRun(fs, m, n) == Running
  {
    if n > 0 {
      StuckForever(fs, m, n - 1);
    }
  }

  // ---- Elements without a required leaf ----

  predicate AllOptional(fs: seq<Field>) {
    forall i :: 0 <= i < |fs| ==> fs[i].kind.Scalar? && fs[i].optional
  }

  predicate IsFloat(f: Field) {
    f.kind.Scalar? && f.kind.leaf.Float32?
  }

  /** A float32 field shares its tag with no other field. */
  predicate FloatsApart(fs: seq<Field>) {
    forall i, j :: 0 <= i < |fs| && 0 <= j < |fs| && i != j && IsFloat(fs[i]) ==> fs[i].tag != fs[j].tag
  }

  /** Every bucket of a float32 field has its four bytes. */
  predicate FloatsFilled(fs: seq<Field>, m: Buckets) {
    forall i, k :: 0 <= i < |fs| && IsFloat(fs[i]) && fs[i].tag in m && 0 <= k < |m[fs[i].tag]| ==>
      |m[fs[i].tag][k]| >= 4
  }

  function Tags(fs: seq<Field>): set<byte> {
    set i | 0 <= i < |fs| :: fs[i].tag
  }

  lemma {:induction false} TagsSplit(fs: seq<Field>)
    requires fs != []
    ensures Tags(fs) == {fs[0].tag} + Tags(fs[1..])
  {
    forall t | t in Tags(fs)
      ensures t in {fs[0].tag} + Tags(fs[1..])
    {
      var i :| 0 <= i < |fs| && fs[i].tag == t;
      assert i > 0 ==> fs[1..][i - 1] == fs[i];
    }
    forall t | t in Tags(fs[1..])
      ensures t in Tags(fs)
    {
      var i :| 0 <= i < |fs[1..]| && fs[1..][i].tag == t;
      assert fs[i + 1].tag == t;
    }
  }

  /** An iteration ends normally if the float32 buckets are filled, and otherwise may
      read out of bounds. */
  lemma {:induction false} OptionalFieldsDone(fs: seq<Field>, m: Buckets)
    requires AllOptional(fs)
    ensures DecodeFields(fs, m).status == Done || DecodeFields(fs, m).status == Panic
    ensures FloatsFilled(fs, m) ==> DecodeFields(fs, m).status == Done
    decreases |fs|
  {
    if fs != [] {
      var d := DecodeField(fs[0], m);
      OptionalFieldsDone(fs[1..], d.rest);
      if FloatsFilled(fs, m) {
        assert IsFloat(fs[0]) && fs[0].tag in m ==> |m[fs[0].tag][0]| >= 4;
        FieldSound(fs[0], m);
        FilledStays(fs, m, d.rest);
        FilledTail(fs, d.rest);
      }
    }
  }

  lemma {:induction false} FilledStays(fs: seq<Field>, m: Buckets, r: Buckets)
    requires FloatsFilled(fs, m) && Suffix(r, m)
    ensures FloatsFilled(fs, r)
  {
    forall i, k | 0 <= i < |fs| && IsFloat(fs[i]) && fs[i].tag in r && 0 <= k < |r[fs[i].tag]|
      ensures |r[fs[i].tag][k]| >= 4
    {
      var t := fs[i].tag;
      assert r[t][k] == m[t][|m[t]| - |r[t]| + k];
    }
  }

  lemma {:induction false} FilledTail(fs: seq<Field>, m: Buckets)
    requires fs != [] && FloatsFilled(fs, m)
    ensures FloatsFilled(fs[1..], m)
  {
    forall i | 0 <= i < |fs[1..]|
      ensures fs[1..][i] == fs[i + 1]
    {
    }
  }

  lemma {:induction false} ForeignTagStays(fs: seq<Field>, m: Buckets, t: byte)
    requires AllOptional(fs) && t in m && t !in Tags(fs)
    ensures t in DecodeFields(fs, m).rest
    decreases |fs|
  {
    if fs != [] {
      TagsSplit(fs);
      assert t in DecodeField(fs[0], m).rest;
      ForeignTagStays(fs[1..], DecodeField(fs[0], m).rest, t);
    }
  }

  lemma {:induction false} NamedTagTaken(fs: seq<Field>, m: Buckets, t: byte)
    requires AllOptional(fs) && t in m && t in Tags(fs)
    ensures Slots(DecodeFields(fs, m).rest) < Slots(m)
    decreases |fs|
  {
    var d := DecodeField(fs[0], m);
    TagsSplit(fs);
    if fs[0].tag in m {
      PopShrinks(m, fs[0].tag);
      FieldsSound(fs[1..], d.rest);
      SuffixSlots(DecodeFields(fs[1..], d.rest).rest, d.rest);
    } else {
      NamedTagTaken(fs[1..], m, t);
    }
  }

  lemma {:induction false} ForeignTagDiverges(fs: seq<Field>, m: Buckets, t: byte)
    requires AllOptional(fs) && t in m && t !in Tags(fs) && FloatsFilled(fs, m)
    ensures DecodeInline(fs, m).status == Diverge
    decreases Slots(m)
  {
    OptionalFieldsDone(fs, m);
    ForeignTagStays(fs, m, t);
    FieldsSound(fs, m);
    var r := DecodeFields(fs, m).rest;
    FilledStays(fs, m, r);
    if Slots(r) < Slots(m) {
      ForeignTagDiverges(fs, r, t);
    }
  }

  lemma {:induction false} NamedTagsEnd(fs: seq<Field>, m: Buckets)
    requires AllOptional(fs) && m.Keys <= Tags(fs)
    ensures DecodeInline(fs, m).status != Diverge
    decreases Slots(m)
  {
    OptionalFieldsDone(fs, m);
    FieldsSound(fs, m);
    var r := DecodeFields(fs, m).rest;
    assert r.Keys <= m.Keys;
    if DecodeFields(fs, m).status == Done && r != map[] {
      var t :| t in r;
      NamedTagTaken(fs, m, t);
      NamedTagsEnd(fs, r);
    }
  }

  /** An iteration takes the oldest bucket of each float32 field, which panics if it is
      short. */
  lemma {:induction false} FloatTaken(fs: seq<Field>, m: Buckets, i: nat)
    requires AllOptional(fs) && FloatsApart(fs) && i < |fs| && IsFloat(fs[i]) && fs[i].tag in m
    ensures var d, q := DecodeFields(fs, m), m[fs[i].tag];
            && (d.status == Done || d.status == Panic)
            && (|q[0]| < 4 ==> d.status == Panic)
            && (d.status == Done && |q| > 1 ==> fs[i].tag in d.rest && d.rest[fs[i].tag] == q[1..])
    decreases |fs|
  {
    var t, d := fs[i].tag, DecodeField(fs[0], m);
    OptionalFieldsDone(fs, m);
    if i == 0 {
      if |m[t]| > 1 {
        NotTaken(fs[1..], d.rest, t);
      }
    } else {
      assert fs[0].tag != t;
      assert fs[1..][i - 1] == fs[i];
      FloatTaken(fs[1..], d.rest, i - 1);
    }
  }

  lemma {:induction false} NotTaken(fs: seq<Field>, m: Buckets, t: byte)
    requires AllOptional(fs) && t in m && forall i :: 0 <= i < |fs| ==> fs[i].tag != t
    ensures t in DecodeFields(fs, m).rest && DecodeFields(fs, m).rest[t] == m[t]
    decreases |fs|
  {
    if fs != [] {
      NotTaken(fs[1..], DecodeField(fs[0], m).rest, t);
    }
  }

  /** A short bucket of a float32 field is reached sooner or later. */
  lemma {:induction false} ShortFloatPanics(fs: seq<Field>, m: Buckets, i: nat, k: nat)
    requires AllOptional(fs) && FloatsApart(fs) && i < |fs| && IsFloat(fs[i])
    requires fs[i].tag in m && k < |m[fs[i].tag]| && |m[fs[i].tag][k]| < 4
    ensures DecodeInline(fs, m).status == Panic
    decreases k
  {
    var t, d := fs[i].tag, DecodeFields(fs, m);
    FloatTaken(fs, m, i);
    if k > 0 && d.status == Done {
      assert t in Tags(fs);
      NamedTagTaken(fs, m, t);
      ShortFloatPanics(fs, d.rest, i, k - 1);
    }
  }

  /** With only optional scalars in the element, the loop runs for ever if and only if
      some tag left in the reader is none of the element's, and no bucket of a float32
      field is short: one foreign item, such as a later field's, makes it append zero
      elements for ever. */
  lemma {:induction false} OptionalElementsDiverge(fs: seq<Field>, m: Buckets)
    requires AllOptional(fs) && FloatsApart(fs)
    ensures DecodeInline(fs, m).status == Diverge <==> !(m.Keys <= Tags(fs)) && FloatsFilled(fs, m)
  {
    if m.Keys <= Tags(fs) {
      NamedTagsEnd(fs, m);
    } else if FloatsFilled(fs, m) {
      var t :| t in m && t !in Tags(fs);
      ForeignTagDiverges(fs, m, t);
    } else {
      var i, k :| 0 <= i < |fs| && IsFloat(fs[i]) && fs[i].tag in m && 0 <= k < |m[fs[i].tag]|
                  && |m[fs[i].tag][k]| < 4;
      ShortFloatPanics(fs, m, i, k);
    }
  }
}
