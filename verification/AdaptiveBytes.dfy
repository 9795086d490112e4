/** The payloads of Adaptive Lighting, byte by byte. */
module AdaptiveBytes {
  import opened AdaptiveTlv
  import opened Bytes
  import opened Tlv8Format
  import opened Tlv8Schema
  import opened Tlv8Scalars

  // ---- Fields ----

  lemma {:induction false} FirstField(f: Field, v: Value, fs: seq<Field>, vs: seq<Value>)
    requires HasType(f, v) && HaveTypes(fs, vs)
    ensures HaveTypes([f] + fs, [v] + vs)
    ensures Encode([f] + fs, [v] + vs) == Serialize(EncodeField(f, v)) + Encode(fs, vs)
  {
    assert ([f] + fs)[1..] == fs && ([v] + vs)[1..] == vs;
    SerializeAppend(EncodeField(f, v), EncodeFields(fs, vs));
  }

  lemma {:induction false} NoFields()
    ensures HaveTypes([], []) && Encode([], []) == []
  {
  }

  /** A number as a field: its tag, its width, and its bytes from the lowest. */
  function NumberBytes(tag: byte, n: nat, w: UnsignedWidth): seq<byte> {
    [tag, w] + LittleEndian(n, w)
  }

  /** Any other value as a field. */
  function ValueItems(tag: byte, v: seq<byte>): seq<byte> {
    Serialize(Fragments(tag, v))
  }

  lemma {:induction false} NumberField(f: Field, n: nat, w: UnsignedWidth)
    requires f.kind == Scalar(Unsigned(w)) && n < Pow256(w)
    ensures HasType(f, Num(n)) && Serialize(EncodeField(f, Num(n))) == NumberBytes(f.tag, n, w)
  {
    ValueBytes(f.tag, LittleEndian(n, w));
    hide Serialize, Fragments, LittleEndian;
  }

  lemma {:induction false} RawField(f: Field, b: seq<byte>)
    requires f.kind == DATA || (f.kind == F32 && |b| == 4)
    ensures HasType(f, Raw(b)) && Serialize(EncodeField(f, Raw(b))) == ValueItems(f.tag, b)
  {
    hide Serialize, Fragments;
  }

  lemma {:induction false} FloatField(f: Field, b: float32)
    requires f.kind == F32
    ensures HasType(f, Raw(b)) && Serialize(EncodeField(f, Raw(b))) == [f.tag, 4] + b
  {
    RawField(f, b);
    ValueBytes(f.tag, b);
    hide Serialize, Fragments, EncodeField;
  }

  lemma {:induction false} StructField(f: Field, fs: seq<Field>, vs: seq<Value>)
    requires f.kind == Struct(fs) && HaveTypes(fs, vs)
    ensures HasType(f, Record(vs)) && Serialize(EncodeField(f, Record(vs))) == ValueItems(f.tag, Encode(fs, vs))
  {
    hide Serialize, Fragments, Encode;
  }

  lemma {:induction false} PointerField(f: Field, fs: seq<Field>, vs: seq<Value>)
    requires f.kind == Pointer(fs) && HaveTypes(fs, vs)
    ensures HasType(f, Ref(vs)) && Serialize(EncodeField(f, Ref(vs))) == ValueItems(f.tag, Encode(fs, vs))
    ensures HasType(f, Nil) && Serialize(EncodeField(f, Nil)) == []
  {
    hide Fragments, Encode;
    assert Serialize([]) == [];
    hide Serialize;
  }

  // ---- Payloads ----

  /** A curve entry: its factor, its temperature, its time and its hold, in this order
      under the tags 1 to 4. */
  function EntryBytes(e: CurveEntry): seq<byte> {
    ([1, 4] + e.adjustmentFactor) + (([2, 4] + e.temperature) +
    (NumberBytes(3, e.transitionOffset, 4) + NumberBytes(4, e.duration, 4)))
  }

  lemma {:induction false} EntryIs(e: CurveEntry)
    ensures HaveTypes(ENTRY, EntryValues(e)) && Encode(ENTRY, EntryValues(e)) == EntryBytes(e)
  {
    Powers();
    NoFields();
    hide Encode, EncodeField, HaveTypes, HasType, Serialize, Pow256, LittleEndian;
    var f1, f2, f3, f4 := ENTRY[0], ENTRY[1], ENTRY[2], ENTRY[3];
    NumberField(f4, e.duration, 4);
    FirstField(f4, Num(e.duration), [], []);
    NumberField(f3, e.transitionOffset, 4);
    FirstField(f3, Num(e.transitionOffset), [f4] + [], [Num(e.duration)] + []);
    FloatField(f2, e.temperature);
    FirstField(f2, Raw(e.temperature), [f3] + ([f4] + []), [Num(e.transitionOffset)] + ([Num(e.duration)] + []));
    FloatField(f1, e.adjustmentFactor);
    FirstField(f1, Raw(e.adjustmentFactor), [f2] + ([f3] + ([f4] + [])),
               [Raw(e.temperature)] + ([Num(e.transitionOffset)] + ([Num(e.duration)] + [])));
    assert NumberBytes(4, e.duration, 4) + [] == NumberBytes(4, e.duration, 4);
  }

  /** Entries follow each other under tag 1, two zero bytes between them. */
  function EntriesBytes(es: seq<CurveEntry>): seq<byte>
    decreases |es|
  {
    if es == [] then []
    else
      var n := |es| - 1;
      EntriesBytes(es[..n]) + ((if n == 0 then [] else [0, 0]) + ([1, 24] + EntryBytes(es[n])))
  }

  lemma {:induction false} EntriesAre(es: seq<CurveEntry>)
    ensures var vs := EntriesValues(es);
            && (forall i :: 0 <= i < |vs| ==> HaveTypes(ENTRY, vs[i]))
            && Serialize(EncodeList(1, ENTRY, vs, true)) == EntriesBytes(es)
    decreases |es|
  {
    hide Encode, HaveTypes, Fragments, Serialize, EntryBytes;
    var vs := EntriesValues(es);
    forall i | 0 <= i < |vs|
      ensures HaveTypes(ENTRY, vs[i])
    {
      EntryIs(es[i]);
    }
    if es == [] {
      NoItems();
    } else {
      var n := |es| - 1;
      EntriesAre(es[..n]);
      assert vs == EntriesValues(es[..n]) + [EntryValues(es[n])];
      EntryIs(es[n]);
      EntryLength(es[n]);
      ValueBytes(1, EntryBytes(es[n]));
      ElementBytes(1, ENTRY, EntriesValues(es[..n]), EntryValues(es[n]), true);
    }
  }

  lemma {:induction false} NoItems()
    ensures Serialize([]) == []
  {
  }

  lemma {:induction false} EntryLength(e: CurveEntry)
    ensures |EntryBytes(e)| == 24
  {
    hide LittleEndian;
  }

  /** A curve: its entries under tag 1, the adjusted characteristic under tag 2, and the
      brightness range, lower bound first, under tag 3. */
  function CurveBytes(c: CurveConfig): seq<byte> {
    EntriesBytes(c.entries) +
    (NumberBytes(2, c.adjustmentIid, 8) +
    ([3, 12] + (NumberBytes(1, c.multiplier.min, 4) + NumberBytes(2, c.multiplier.max, 4))))
  }

  lemma {:induction false} RangeIs(r: MultiplierRange)
    ensures HaveTypes(RANGE, RangeValues(r))
    ensures Encode(RANGE, RangeValues(r)) == NumberBytes(1, r.min, 4) + NumberBytes(2, r.max, 4)
  {
    Powers();
    NoFields();
    hide Encode, EncodeField, HaveTypes, HasType, Serialize, Pow256, LittleEndian;
    NumberField(RANGE[1], r.max, 4);
    FirstField(RANGE[1], Num(r.max), [], []);
    NumberField(RANGE[0], r.min, 4);
    FirstField(RANGE[0], Num(r.min), [RANGE[1]] + [], [Num(r.max)] + []);
    assert NumberBytes(2, r.max, 4) + [] == NumberBytes(2, r.max, 4);
  }

  lemma {:induction false} CurveIs(c: CurveConfig)
    ensures HaveTypes(CURVE, CurveValues(c)) && Encode(CURVE, CurveValues(c)) == CurveBytes(c)
  {
    Powers();
    NoFields();
    var f1, f2, f3 := CURVE[0], CURVE[1], CURVE[2];
    var v1, v2, v3 := Many(EntriesValues(c.entries)), Num(c.adjustmentIid), Record(RangeValues(c.multiplier));
    EntriesAre(c.entries);
    assert HasType(f1, v1) && EncodeField(f1, v1) == EncodeList(1, ENTRY, v1.elems, true);
    hide Encode, EncodeField, HaveTypes, HasType, Serialize, Pow256, LittleEndian, EntriesBytes;
    RangeIs(c.multiplier);
    var range := Encode(RANGE, RangeValues(c.multiplier));
    ValueBytes(3, range);
    StructField(f3, RANGE, RangeValues(c.multiplier));
    FirstField(f3, v3, [], []);
    NumberField(f2, c.adjustmentIid, 8);
    FirstField(f2, v2, [f3] + [], [v3] + []);
    FirstField(f1, v1, [f2] + ([f3] + []), [v2] + ([v3] + []));
    assert ([3, 12] + range) + [] == [3, 12] + range;
  }

  /** Parameters: the transition's id, its start time and an unknown value under the tags
      1 to 3, each left out if it is empty. */
  function ParametersBytes(p: TransitionParameters): seq<byte> {
    ValueItems(1, p.transitionId) + (ValueItems(2, p.startTime) + ValueItems(3, p.unknown3))
  }

  lemma {:induction false} ParametersAre(p: TransitionParameters)
    ensures HaveTypes(PARAMETERS, ParametersValues(p))
    ensures Encode(PARAMETERS, ParametersValues(p)) == ParametersBytes(p)
  {
    NoFields();
    hide Encode, EncodeField, HaveTypes, HasType, ValueItems;
    var f1, f2, f3 := PARAMETERS[0], PARAMETERS[1], PARAMETERS[2];
    var v2, v3 := Raw(p.startTime), Raw(p.unknown3);
    RawField(f3, p.unknown3);
    FirstField(f3, v3, [], []);
    RawField(f2, p.startTime);
    FirstField(f2, v2, [f3] + [], [v3] + []);
    RawField(f1, p.transitionId);
    FirstField(f1, Raw(p.transitionId), [f2] + ([f3] + []), [v2] + ([v3] + []));
    assert ValueItems(3, p.unknown3) + [] == ValueItems(3, p.unknown3);
  }

  /** What a configuration says besides its id: parameters, a byte, the curve, the update
      interval and the notification threshold under the tags 2, 3, 5, 6 and 8. */
  function BodyBytes(p: TransitionParameters, byte3: uint8, c: CurveConfig, n6: uint16, n8: uint32): seq<byte> {
    ValueItems(2, ParametersBytes(p)) +
    (NumberBytes(3, byte3, 1) +
    (ValueItems(5, CurveBytes(c)) +
    (NumberBytes(6, n6, 2) + NumberBytes(8, n8, 4))))
  }

  lemma {:induction false} BodyIs(
      f2: Field, p: TransitionParameters, f3: Field, byte3: uint8, f5: Field, c: CurveConfig,
      f6: Field, n6: uint16, f8: Field, n8: uint32)
    requires f2.kind == Struct(PARAMETERS) && f3.kind == U8 && f5.kind == Struct(CURVE)
    requires f6.kind == U16 && f8.kind == U32
    requires f2.tag == 2 && f3.tag == 3 && f5.tag == 5 && f6.tag == 6 && f8.tag == 8
    ensures var fs := [f2] + ([f3] + ([f5] + ([f6] + ([f8] + []))));
            var vs := [Record(ParametersValues(p))] +
                      ([Num(byte3)] + ([Record(CurveValues(c))] + ([Num(n6)] + ([Num(n8)] + []))));
            HaveTypes(fs, vs) && Encode(fs, vs) == BodyBytes(p, byte3, c, n6, n8)
  {
    Powers();
    NoFields();
    hide Encode, EncodeField, HaveTypes, HasType, Pow256, NumberBytes, ValueItems, ParametersBytes, CurveBytes;
    var v2, v5 := Record(ParametersValues(p)), Record(CurveValues(c));
    NumberField(f8, n8, 4);
    FirstField(f8, Num(n8), [], []);
    NumberField(f6, n6, 2);
    var fs6, vs6 := [f6] + ([f8] + []), [Num(n6)] + ([Num(n8)] + []);
    FirstField(f6, Num(n6), [f8] + [], [Num(n8)] + []);
    CurveIs(c);
    StructField(f5, CURVE, CurveValues(c));
    FirstField(f5, v5, fs6, vs6);
    NumberField(f3, byte3, 1);
    FirstField(f3, Num(byte3), [f5] + fs6, [v5] + vs6);
    ParametersAre(p);
    StructField(f2, PARAMETERS, ParametersValues(p));
    FirstField(f2, v2, [f3] + ([f5] + fs6), [Num(byte3)] + ([v5] + vs6));
    assert NumberBytes(8, n8, 4) + [] == NumberBytes(8, n8, 4);
  }

  function ConfigBytes(c: TransitionConfig): seq<byte> {
    NumberBytes(1, c.iid, 8) +
    BodyBytes(c.parameters, c.enabled, c.curve, c.updateInterval, c.notifyIntervalThreshold)
  }

  lemma {:induction false} ConfigIs(c: TransitionConfig)
    ensures HaveTypes(CONFIG, ConfigValues(c)) && Encode(CONFIG, ConfigValues(c)) == ConfigBytes(c)
  {
    Powers();
    hide Encode, EncodeField, HaveTypes, HasType, Pow256, NumberBytes, BodyBytes;
    BodyIs(CONFIG[1], c.parameters, CONFIG[2], c.enabled, CONFIG[3], c.curve, CONFIG[4], c.updateInterval,
           CONFIG[5], c.notifyIntervalThreshold);
    NumberField(CONFIG[0], c.iid, 8);
    assert CONFIG == [CONFIG[0]] + CONFIG[1..] && ConfigValues(c) == [Num(c.iid)] + ConfigValues(c)[1..];
    FirstField(CONFIG[0], Num(c.iid), CONFIG[1..], ConfigValues(c)[1..]);
  }

  /** A control write: the id to read under tag 1, and the configuration to write, inside
      a struct of its own, under tag 2; each only if it is there. */
  lemma {:induction false} ControlWriteIs(w: ControlWrite)
    ensures HaveTypes(CONTROL_WRITE, ControlWriteValues(w))
    ensures Encode(CONTROL_WRITE, ControlWriteValues(w))
            == (if w.readIid.Some? then ValueItems(1, NumberBytes(1, w.readIid.value, 8)) else []) +
               (if w.update.Some? then ValueItems(2, ValueItems(1, ConfigBytes(w.update.value))) else [])
  {
    NoFields();
    ReadItem(w);
    UpdateItem(w);
    hide Encode, EncodeField, HaveTypes, HasType, NumberBytes, ValueItems, ConfigBytes;
    var f1, f2, vs := CONTROL_WRITE[0], CONTROL_WRITE[1], ControlWriteValues(w);
    FirstField(f2, vs[1], [], []);
    FirstField(f1, vs[0], [f2] + [], [vs[1]] + []);
    assert vs == [vs[0]] + ([vs[1]] + []);
    assert Serialize(EncodeField(f2, vs[1])) + [] == Serialize(EncodeField(f2, vs[1]));
  }

  lemma {:induction false} ReadItem(w: ControlWrite)
    ensures var f, v := CONTROL_WRITE[0], ControlWriteValues(w)[0];
            && HasType(f, v)
            && Serialize(EncodeField(f, v))
               == if w.readIid.Some? then ValueItems(1, NumberBytes(1, w.readIid.value, 8)) else []
  {
    var iid := if w.readIid.Some? then w.readIid.value else 0;
    Powers();
    hide Encode, EncodeField, HaveTypes, HasType, Pow256, NumberBytes, ValueItems, ConfigValues;
    NumberField(READ[0], iid, 8);
    SoleField(READ[0], Num(iid), NumberBytes(1, iid, 8));
    PointerField(CONTROL_WRITE[0], READ, [Num(iid)] + []);
  }

  lemma {:induction false} UpdateItem(w: ControlWrite)
    ensures var f, v := CONTROL_WRITE[1], ControlWriteValues(w)[1];
            && HasType(f, v)
            && Serialize(EncodeField(f, v))
               == if w.update.Some? then ValueItems(2, ValueItems(1, ConfigBytes(w.update.value))) else []
  {
    var config := if w.update.Some? then w.update.value else SOME_CONFIG;
    ConfigIs(config);
    hide Encode, EncodeField, HaveTypes, HasType, ValueItems, ConfigBytes, ConfigValues;
    StructField(UPDATE[0], CONFIG, ConfigValues(config));
    SoleField(UPDATE[0], Record(ConfigValues(config)), ValueItems(1, ConfigBytes(config)));
    PointerField(CONTROL_WRITE[1], UPDATE, [Record(ConfigValues(config))] + []);
  }

  lemma {:induction false} SoleField(f: Field, v: Value, b: seq<byte>)
    requires HasType(f, v) && Serialize(EncodeField(f, v)) == b
    ensures HaveTypes([f] + [], [v] + []) && Encode([f] + [], [v] + []) == b
  {
    NoFields();
    FirstField(f, v, [], []);
    hide Encode, HaveTypes;
    assert b + [] == b;
  }

  /** The body that is read back, inside a struct of its own under tag 1. */
  lemma {:induction false} ReadResponseIs(c: ReadConfig)
    ensures HaveTypes(READ_RESPONSE, ReadResponseValues(c))
    ensures Encode(READ_RESPONSE, ReadResponseValues(c))
            == ValueItems(1, NumberBytes(1, c.iid, 8) +
                             BodyBytes(c.parameters, c.unknown3, c.curve, c.updateInterval, c.notifyIntervalThreshold))
  {
    Powers();
    hide Encode, EncodeField, HaveTypes, HasType, Pow256, NumberBytes, BodyBytes, ValueItems;
    var fs, vs := READ_CONFIG, ReadResponseValues(c)[0].vals;
    BodyIs(fs[1], c.parameters, fs[2], c.unknown3, fs[3], c.curve, fs[4], c.updateInterval,
           fs[5], c.notifyIntervalThreshold);
    NumberField(fs[0], c.iid, 8);
    assert fs == [fs[0]] + fs[1..] && vs == [Num(c.iid)] + vs[1..];
    FirstField(fs[0], Num(c.iid), fs[1..], vs[1..]);
    StructField(READ_RESPONSE[0], fs, vs);
    SoleField(READ_RESPONSE[0], Record(vs), ValueItems(1, Encode(fs, vs)));
  }

  /** The status that a write returns: id, parameters and elapsed time under the tags 1
      to 3, inside a struct of its own under tag 1. */
  lemma {:induction false} StatusResponseIs(s: StatusResponse)
    ensures HaveTypes(STATUS_RESPONSE, StatusResponseValues(s))
    ensures Encode(STATUS_RESPONSE, StatusResponseValues(s))
            == ValueItems(1, NumberBytes(1, s.iid, 8) +
                             (ValueItems(2, ParametersBytes(s.parameters)) + NumberBytes(3, s.timeSinceStart, 8)))
  {
    Powers();
    NoFields();
    hide Encode, EncodeField, HaveTypes, HasType, Pow256, NumberBytes, ParametersBytes, ValueItems;
    var f1, f2, f3 := STATUS[0], STATUS[1], STATUS[2];
    var v1, v2, v3 := Num(s.iid), Record(ParametersValues(s.parameters)), Num(s.timeSinceStart);
    NumberField(f3, s.timeSinceStart, 8);
    FirstField(f3, v3, [], []);
    ParametersAre(s.parameters);
    StructField(f2, PARAMETERS, ParametersValues(s.parameters));
    FirstField(f2, v2, [f3] + [], [v3] + []);
    NumberField(f1, s.iid, 8);
    FirstField(f1, v1, [f2] + ([f3] + []), [v2] + ([v3] + []));
    var vs := StatusResponseValues(s)[0].vals;
    StructField(STATUS_RESPONSE[0], STATUS, vs);
    SoleField(STATUS_RESPONSE[0], Record(vs), ValueItems(1, Encode(STATUS, vs)));
    assert NumberBytes(3, s.timeSinceStart, 8) + [] == NumberBytes(3, s.timeSinceStart, 8);
  }

  // ---- What must be there ----

  /** The field is decoded first, and the others from what it leaves. */
  lemma {:induction false} DecodeFirst(f: Field, fs: seq<Field>, m: Buckets)
    ensures var d, r := DecodeField(f, m), DecodeFields([f] + fs, m);
            && (d.status != Done ==> r.status == d.status)
            && (d.status == Done ==> r.status == DecodeFields(fs, d.rest).status)
            && (d.status == Done ==> r.vals == [d.value] + DecodeFields(fs, d.rest).vals)
  {
    assert ([f] + fs)[1..] == fs;
    hide DecodeField;
  }

  /** `m'` is `m` but for what it holds under the tag. */
  ghost predicate SameBut(m: Buckets, m': Buckets, tag: byte) {
    forall t :: t != tag ==> ((t in m <==> t in m') && (t in m ==> m[t] == m'[t]))
  }

  lemma {:induction false} ScalarNeeds(f: Field, l: Leaf, m: Buckets)
    requires f.kind == Scalar(l)
    ensures var d := DecodeField(f, m);
            && (d.status == Done <==> if f.tag in m then l.Float32? ==> |m[f.tag][0]| >= 4 else f.optional)
            && (d.status == EOF <==> f.tag !in m && !f.optional)
            && (f.tag !in m ==> d.value == LeafZero(l))
            && SameBut(m, d.rest, f.tag)
  {
    hide LeafValue;
  }

  /** Decoding an entry needs its first three values, the first two in four bytes; an
      absent hold is zero. */
  lemma {:induction false} EntryNeeds(m: Buckets)
    ensures var d := DecodeFields(ENTRY, m);
            && (d.status == Done <==> 1 in m && 2 in m && 3 in m && |m[1][0]| >= 4 && |m[2][0]| >= 4)
            && (d.status == Done && 4 !in m ==> |d.vals| == 4 && d.vals[3] == Num(0))
  {
    NoneLeft();
    var f1, f2, f3, f4 := ENTRY[0], ENTRY[1], ENTRY[2], ENTRY[3];
    hide DecodeField, DecodeFields, SameBut;
    DecodeFirst(f1, [f2] + ([f3] + ([f4] + [])), m);
    ScalarNeeds(f1, Float32, m);
    var m1 := DecodeField(f1, m).rest;
    DecodeFirst(f2, [f3] + ([f4] + []), m1);
    ScalarNeeds(f2, Float32, m1);
    var m2 := DecodeField(f2, m1).rest;
    DecodeFirst(f3, [f4] + [], m2);
    ScalarNeeds(f3, Unsigned(4), m2);
    var m3 := DecodeField(f3, m2).rest;
    DecodeFirst(f4, [], m3);
    ScalarNeeds(f4, Unsigned(4), m3);
    Elsewhere(m, m1, 1, 2);
    Elsewhere(m, m1, 1, 3);
    Elsewhere(m, m1, 1, 4);
    Elsewhere(m1, m2, 2, 3);
    Elsewhere(m1, m2, 2, 4);
    Elsewhere(m2, m3, 3, 4);
  }

  lemma {:induction false} NoneLeft()
    ensures forall m :: DecodeFields([], m) == Result(Done, [], m)
  {
  }

  lemma {:induction false} Elsewhere(m: Buckets, m': Buckets, tag: byte, t: byte)
    requires SameBut(m, m', tag) && t != tag
    ensures (t in m <==> t in m') && (t in m ==> m[t] == m'[t])
  {
  }

  /** Parameters need an id and a start time, a brightness range both its bounds, and a
      request to read an id; otherwise they end with the end-of-file error. */
  lemma {:induction false} OthersNeed(m: Buckets)
    ensures DecodeFields(PARAMETERS, m).status == if 1 in m && 2 in m then Done else EOF
    ensures DecodeFields(RANGE, m).status == if 1 in m && 2 in m then Done else EOF
    ensures DecodeFields(READ, m).status == if 1 in m then Done else EOF
  {
    NoneLeft();
    hide DecodeField, DecodeFields, SameBut;
    forall fs | fs == PARAMETERS || fs == RANGE
      ensures DecodeFields(fs, m).status == if 1 in m && 2 in m then Done else EOF
    {
      TwoNeeded(fs[0], fs[1], fs[2..], m);
      assert fs == [fs[0]] + ([fs[1]] + fs[2..]);
      if fs == PARAMETERS {
        var m2 := DecodeField(fs[1], DecodeField(fs[0], m).rest).rest;
        DecodeFirst(fs[2], [], m2);
        ScalarNeeds(fs[2], Data, m2);
        assert fs[2..] == [fs[2]] + [];
      } else {
        assert fs[2..] == [];
      }
    }
    DecodeFirst(READ[0], [], m);
    ScalarNeeds(READ[0], Unsigned(8), m);
  }

  lemma {:induction false} TwoNeeded(f1: Field, f2: Field, fs: seq<Field>, m: Buckets)
    requires f1.tag == 1 && f2.tag == 2 && f1.kind == f2.kind && !f1.optional && !f2.optional
    requires f1.kind == DATA || f1.kind == U32
    ensures var status := DecodeFields([f1] + ([f2] + fs), m).status;
            if 1 in m && 2 in m then status == DecodeFields(fs, DecodeField(f2, DecodeField(f1, m).rest).rest).status
            else status == EOF
  {
    var m1 := DecodeField(f1, m).rest;
    hide DecodeField, DecodeFields, SameBut;
    DecodeFirst(f1, [f2] + fs, m);
    ScalarNeeds(f1, f1.kind.leaf, m);
    DecodeFirst(f2, fs, m1);
    ScalarNeeds(f2, f2.kind.leaf, m1);
    Elsewhere(m, m1, 1, 2);
  }

  /** A configuration ends with the end-of-file error exactly without its id, and a
      curve that has no entries exactly without the id of what it adjusts. */
  lemma {:induction false} ConfigNeeds(m: Buckets)
    ensures DecodeFields(CONFIG, m).status == EOF <==> 1 !in m
    ensures 1 !in m ==> (DecodeFields(CURVE, m).status == EOF <==> 2 !in m)
  {
    NoneLeft();
    hide DecodeFields, SameBut, DecodeField;
    var fs := CONFIG;
    ScalarNeeds(fs[0], Unsigned(8), m);
    DecodeFirst(fs[0], fs[1..], m);
    assert fs == [fs[0]] + fs[1..];
    SkipsEof(fs[1..], DecodeField(fs[0], m).rest);
    if 1 !in m {
      var gs := CURVE;
      assert gs == [gs[0]] + ([gs[1]] + gs[2..]);
      DecodeFirst(gs[0], [gs[1]] + gs[2..], m);
      ListAbsent(gs[0], m);
      ScalarNeeds(gs[1], Unsigned(8), m);
      DecodeFirst(gs[1], gs[2..], m);
      SkipsEof(gs[2..], DecodeField(gs[1], m).rest);
    }
  }

  lemma {:induction false} ListAbsent(f: Field, m: Buckets)
    requires f.kind.List? && f.tag !in m
    ensures DecodeField(f, m) == FieldResult(Done, Many([]), m)
  {
  }

  /** Structs and optional numbers never end with the end-of-file error. */
  lemma {:induction false} SkipsEof(fs: seq<Field>, m: Buckets)
    requires forall i :: 0 <= i < |fs| ==> fs[i].kind.Struct? || (fs[i].kind.Scalar? && fs[i].optional)
    ensures DecodeFields(fs, m).status != EOF
    decreases |fs|
  {
    NoneLeft();
    if fs != [] {
      var d := DecodeField(fs[0], m);
      assert fs == [fs[0]] + fs[1..];
      DecodeFirst(fs[0], fs[1..], m);
      SkipsEof(fs[1..], d.rest);
      if fs[0].kind.Scalar? {
        ScalarNeeds(fs[0], fs[0].kind.leaf, m);
      } else {
        NestedSkips(fs[0], m);
      }
      hide DecodeField, DecodeFields;
    }
  }

  lemma {:induction false} NestedSkips(f: Field, m: Buckets)
    requires f.kind.Struct?
    ensures DecodeField(f, m).status != EOF
  {
    hide DecodeBytes;
  }
}
