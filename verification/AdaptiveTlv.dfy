/** The payloads of Adaptive Lighting, as schemas of the TLV8 codec. */
module AdaptiveTlv {
  import opened Bytes
  import opened Options
  import opened Tlv8Format
  import opened Tlv8Schema
  import opened Tlv8Exact
  import opened Tlv8RoundTrip

  type uint8 = n: int | 0 <= n < 0x100
  type uint16 = n: int | 0 <= n < 0x1_0000
  type uint32 = n: int | 0 <= n < 0x1_0000_0000
  type uint64 = n: int | 0 <= n < 0x1_0000_0000_0000_0000
  /** A float32 is opaque here: its four bytes. */
  type float32 = b: seq<byte> | |b| == 4 witness [0, 0, 0, 0]

  datatype CurveEntry = CurveEntry(
    adjustmentFactor: float32, temperature: float32, transitionOffset: uint32, duration: uint32)
  datatype MultiplierRange = MultiplierRange(min: uint32, max: uint32)
  datatype CurveConfig = CurveConfig(entries: seq<CurveEntry>, adjustmentIid: uint64, multiplier: MultiplierRange)
  datatype TransitionParameters = TransitionParameters(
    transitionId: seq<byte>, startTime: seq<byte>, unknown3: seq<byte>)
  datatype TransitionConfig = TransitionConfig(
    iid: uint64, parameters: TransitionParameters, enabled: uint8, curve: CurveConfig,
    updateInterval: uint16, notifyIntervalThreshold: uint32)
  datatype ControlWrite = ControlWrite(readIid: Option<uint64>, update: Option<TransitionConfig>)
  datatype ReadConfig = ReadConfig(
    iid: uint64, parameters: TransitionParameters, unknown3: uint8, curve: CurveConfig,
    updateInterval: uint16, notifyIntervalThreshold: uint32)
  datatype StatusResponse = StatusResponse(iid: uint64, parameters: TransitionParameters, timeSinceStart: uint64)

  // ---- Schemas ----

  function Required(tag: byte, k: Kind): Field { Field(tag, false, k) }

  function Optional(tag: byte, k: Kind): Field { Field(tag, true, k) }

  const U8 := Scalar(Unsigned(1))
  const U16 := Scalar(Unsigned(2))
  const U32 := Scalar(Unsigned(4))
  const U64 := Scalar(Unsigned(8))
  const F32 := Scalar(Float32)
  const DATA := Scalar(Data)

  const ENTRY := [Required(1, F32)] + ([Required(2, F32)] + ([Required(3, U32)] + ([Optional(4, U32)] + [])))
  const RANGE := [Required(1, U32)] + ([Required(2, U32)] + [])
  const CURVE := [Required(1, List(ENTRY))] + ([Required(2, U64)] + ([Required(3, Struct(RANGE))] + []))
  const PARAMETERS := [Required(1, DATA)] + ([Required(2, DATA)] + ([Optional(3, DATA)] + []))
  const CONFIG :=
    [Required(1, U64)] + ([Required(2, Struct(PARAMETERS))] + ([Optional(3, U8)] +
    ([Optional(5, Struct(CURVE))] + ([Optional(6, U16)] + ([Optional(8, U32)] + [])))))
  const UPDATE := [Required(1, Struct(CONFIG))] + []
  const READ := [Required(1, U64)] + []
  const CONTROL_WRITE := [Optional(1, Pointer(READ))] + ([Optional(2, Pointer(UPDATE))] + [])
  const READ_CONFIG :=
    [Required(1, U64)] + ([Required(2, Struct(PARAMETERS))] + ([Required(3, U8)] +
    ([Required(5, Struct(CURVE))] + ([Required(6, U16)] + ([Required(8, U32)] + [])))))
  const READ_RESPONSE := [Required(1, Struct(READ_CONFIG))] + []
  const STATUS := [Required(1, U64)] + ([Required(2, Struct(PARAMETERS))] + ([Required(3, U64)] + []))
  const STATUS_RESPONSE := [Required(1, Struct(STATUS))] + []

  // ---- Values ----

  function EntryValues(e: CurveEntry): seq<Value> {
    [Raw(e.adjustmentFactor)] + ([Raw(e.temperature)] + ([Num(e.transitionOffset)] + ([Num(e.duration)] + [])))
  }

  function EntriesValues(es: seq<CurveEntry>): (vs: seq<seq<Value>>)
    ensures |vs| == |es| && forall i :: 0 <= i < |es| ==> vs[i] == EntryValues(es[i])
  {
    seq(|es|, i requires 0 <= i < |es| => EntryValues(es[i]))
  }

  function RangeValues(r: MultiplierRange): seq<Value> { [Num(r.min)] + ([Num(r.max)] + []) }

  function CurveValues(c: CurveConfig): seq<Value> {
    [Many(EntriesValues(c.entries))] + ([Num(c.adjustmentIid)] + ([Record(RangeValues(c.multiplier))] + []))
  }

  function ParametersValues(p: TransitionParameters): seq<Value> {
    [Raw(p.transitionId)] + ([Raw(p.startTime)] + ([Raw(p.unknown3)] + []))
  }

  function ConfigValues(c: TransitionConfig): seq<Value> {
    [Num(c.iid)] + ([Record(ParametersValues(c.parameters))] + ([Num(c.enabled)] +
    ([Record(CurveValues(c.curve))] + ([Num(c.updateInterval)] + ([Num(c.notifyIntervalThreshold)] + [])))))
  }

  function ControlWriteValues(w: ControlWrite): seq<Value> {
    [if w.readIid.None? then Nil else Ref([Num(w.readIid.value)] + [])] +
    ([if w.update.None? then Nil else Ref([Record(ConfigValues(w.update.value))] + [])] + [])
  }

  function ReadResponseValues(c: ReadConfig): seq<Value> {
    [Record([Num(c.iid)] + ([Record(ParametersValues(c.parameters))] + ([Num(c.unknown3)] +
    ([Record(CurveValues(c.curve))] + ([Num(c.updateInterval)] + ([Num(c.notifyIntervalThreshold)] + []))))))] + []
  }

  function StatusResponseValues(s: StatusResponse): seq<Value> {
    [Record([Num(s.iid)] + ([Record(ParametersValues(s.parameters))] + ([Num(s.timeSinceStart)] + [])))] + []
  }

  // ---- What comes back, one field at a time ----

  ghost predicate Typed(fs: seq<Field>, vs: seq<Value>) {
    HaveTypes(fs, vs) && Regular(fs)
  }

  lemma {:induction false} Cons(f: Field, v: Value, fs: seq<Field>, vs: seq<Value>)
    requires Typed(fs, vs) && !f.kind.Inline? && FieldRegular(f) && HasType(f, v)
    requires KeyTag(f) !in KeyTags(fs)
    ensures Typed([f] + fs, [v] + vs)
    ensures KeyTags([f] + fs) == {KeyTag(f)} + KeyTags(fs)
    ensures FieldExact(f, v, false) ==> (Exact([f] + fs, [v] + vs) <==> Exact(fs, vs))
    ensures !f.kind.List? ==> (Exact([f] + fs, [v] + vs) <==> FieldExact(f, v, false) && Exact(fs, vs))
  {
    assert ([f] + fs)[1..] == fs && ([v] + vs)[1..] == vs;
    hide FieldExact, Queues;
    if FieldExact(f, v, false) {
      MoreWhenAlone(f, v);
    }
    if !f.kind.List? {
      AloneMatters(f, v, false);
    }
  }

  /** A number comes back. */
  lemma {:induction false} NumberCons(f: Field, n: int, fs: seq<Field>, vs: seq<Value>)
    requires Typed(fs, vs)
    requires f.kind.Scalar? && f.kind.leaf.Unsigned? && 0 <= n < Pow256(f.kind.leaf.uwidth)
    requires KeyTag(f) !in KeyTags(fs)
    ensures Typed([f] + fs, [Num(n)] + vs)
    ensures KeyTags([f] + fs) == {KeyTag(f)} + KeyTags(fs)
    ensures Exact([f] + fs, [Num(n)] + vs) <==> Exact(fs, vs)
  {
    Cons(f, Num(n), fs, vs);
  }

  predicate NoBytes(fs: seq<Field>) {
    fs != [] ==> !RequiresBytes(fs[0]) && NoBytes(fs[1..])
  }

  lemma {:induction false} NoBytesCons(f: Field, fs: seq<Field>)
    requires !RequiresBytes(f) && NoBytes(fs)
    ensures NoBytes([f] + fs)
  {
    assert ([f] + fs)[1..] == fs;
  }

  lemma {:induction false} NoBytesEnd(fs: seq<Field>)
    requires Regular(fs) && NoBytes(fs)
    ensures ZeroEnd(fs) != EOF
    decreases |fs|
  {
    hide RequiresBytes, FieldRegular;
    if fs != [] {
      NoBytesEnd(fs[1..]);
    }
  }

  /** A nested struct that is not empty and requires no bytes comes back if its fields
      do. */
  lemma {:induction false} StructCons(f: Field, inner: seq<Value>, fs: seq<Field>, vs: seq<Value>)
    requires Typed(fs, vs)
    requires f.kind.Struct? && Typed(f.kind.fields, inner) && Encode(f.kind.fields, inner) != []
    requires NoBytes(f.kind.fields) && KeyTag(f) !in KeyTags(fs)
    ensures Typed([f] + fs, [Record(inner)] + vs)
    ensures KeyTags([f] + fs) == {KeyTag(f)} + KeyTags(fs)
    ensures Exact([f] + fs, [Record(inner)] + vs) <==> Exact(f.kind.fields, inner) && Exact(fs, vs)
  {
    Cons(f, Record(inner), fs, vs);
    NoBytesEnd(f.kind.fields);
  }

  lemma {:induction false} Nothing()
    ensures Typed([], []) && KeyTags([]) == {} && Exact([], []) && NoBytes([])
  {
  }

  lemma {:induction false} Powers()
    ensures Pow256(1) == 0x100 && Pow256(2) == 0x1_0000
    ensures Pow256(4) == 0x1_0000_0000 && Pow256(8) == 0x1_0000_0000_0000_0000
  {
    assert Pow256(4) == 256 * (256 * Pow256(2));
    assert Pow256(6) == 256 * (256 * Pow256(4));
    assert Pow256(8) == 256 * (256 * Pow256(6));
  }

  lemma {:induction false} EncodeCons(f: Field, v: Value, fs: seq<Field>, vs: seq<Value>)
    requires HasType(f, v) && HaveTypes(fs, vs)
    ensures HaveTypes([f] + fs, [v] + vs)
    ensures |Encode([f] + fs, [v] + vs)| == |Serialize(EncodeField(f, v))| + |Encode(fs, vs)|
  {
    assert ([f] + fs)[1..] == fs && ([v] + vs)[1..] == vs;
    SerializeAppend(EncodeField(f, v), EncodeFields(fs, vs));
  }

  /** A struct with a number in it is not empty. */
  lemma {:induction false} NumberWritten(fs: seq<Field>, vs: seq<Value>, i: nat)
    requires HaveTypes(fs, vs) && i < |fs|
    requires fs[i].kind.Scalar? && fs[i].kind.leaf.Unsigned?
    ensures Encode(fs, vs) != []
    decreases i
  {
    SerializeAppend(EncodeField(fs[0], vs[0]), EncodeFields(fs[1..], vs[1..]));
    if i > 0 {
      NumberWritten(fs[1..], vs[1..], i - 1);
    } else {
      WrittenLength(fs[0].tag, LeafPayload(fs[0].kind.leaf, vs[0]));
    }
  }

  /** A curve entry comes back and is always 24 bytes long. */
  lemma {:induction false} EntryBack(e: CurveEntry)
    ensures Typed(ENTRY, EntryValues(e)) && Exact(ENTRY, EntryValues(e))
    ensures |Encode(ENTRY, EntryValues(e))| == 24
  {
    Powers();
    Nothing();
    var f1, f2, f3, f4 := Required(1, F32), Required(2, F32), Required(3, U32), Optional(4, U32);
    var v1, v2, v3, v4 := Raw(e.adjustmentFactor), Raw(e.temperature), Num(e.transitionOffset), Num(e.duration);
    NumberCons(f4, e.duration, [], []);
    NumberCons(f3, e.transitionOffset, [f4] + [], [v4] + []);
    Cons(f2, v2, [f3] + ([f4] + []), [v3] + ([v4] + []));
    Cons(f1, v1, [f2] + ([f3] + ([f4] + [])), [v2] + ([v3] + ([v4] + [])));
    hide Exact, KeyTags;
    EncodeCons(f4, v4, [], []);
    EncodeCons(f3, v3, [f4] + [], [v4] + []);
    EncodeCons(f2, v2, [f3] + ([f4] + []), [v3] + ([v4] + []));
    EncodeCons(f1, v1, [f2] + ([f3] + ([f4] + [])), [v2] + ([v3] + ([v4] + [])));
    WrittenLength(1, LeafPayload(Float32, v1));
    WrittenLength(2, LeafPayload(Float32, v2));
    WrittenLength(3, LeafPayload(Unsigned(4), v3));
    WrittenLength(4, LeafPayload(Unsigned(4), v4));
  }

  lemma {:induction false} EntriesBack(f: Field, es: seq<CurveEntry>)
    requires f.kind == List(ENTRY)
    ensures FieldRegular(f) && HasType(f, Many(EntriesValues(es))) && FieldExact(f, Many(EntriesValues(es)), false)
  {
    var vs := EntriesValues(es);
    forall i | 0 <= i < |vs|
      ensures Typed(ENTRY, vs[i]) && Exact(ENTRY, vs[i]) && |Encode(ENTRY, vs[i])| == 24
    {
      EntryBack(es[i]);
    }
    if vs == [] {
      EntryBack(CurveEntry([0, 0, 0, 0], [0, 0, 0, 0], 0, 0));
    } else {
      assert Typed(ENTRY, vs[0]);
    }
    hide Exact, Encode, HaveTypes, Regular;
    AllExact(ENTRY, vs);
  }

  lemma {:induction false} CurveBack(c: CurveConfig)
    ensures Typed(CURVE, CurveValues(c)) && Exact(CURVE, CurveValues(c)) && NoBytes(CURVE)
    ensures Encode(CURVE, CurveValues(c)) != []
  {
    Powers();
    Nothing();
    var g1, g2 := Required(1, U32), Required(2, U32);
    NumberCons(g2, c.multiplier.max, [], []);
    NumberCons(g1, c.multiplier.min, [g2] + [], [Num(c.multiplier.max)] + []);
    NumberWritten(RANGE, RangeValues(c.multiplier), 0);
    NoBytesCons(g2, []);
    NoBytesCons(g1, [g2] + []);

    var f1, f2, f3 := Required(1, List(ENTRY)), Required(2, U64), Required(3, Struct(RANGE));
    var v1, v2, v3 := Many(EntriesValues(c.entries)), Num(c.adjustmentIid), Record(RangeValues(c.multiplier));
    hide Exact, KeyTags, Encode, HaveTypes, Regular, FieldExact;
    StructCons(f3, RangeValues(c.multiplier), [], []);
    NumberCons(f2, c.adjustmentIid, [f3] + [], [v3] + []);
    EntriesBack(f1, c.entries);
    Cons(f1, v1, [f2] + ([f3] + []), [v2] + ([v3] + []));
    NumberWritten(CURVE, CurveValues(c), 1);
    NoBytesCons(f3, []);
    NoBytesCons(f2, [f3] + []);
    NoBytesCons(f1, [f2] + ([f3] + []));
  }

  /** The parameters of a transition survive: its id and start time are both there, or
      nothing at all is. */
  predicate Survive(p: TransitionParameters) {
    (p.transitionId != [] && p.startTime != []) || (p.transitionId == [] && p.startTime == [] && p.unknown3 == [])
  }

  lemma {:induction false} ParametersBack(f: Field, p: TransitionParameters)
    requires f.kind == Struct(PARAMETERS)
    ensures FieldRegular(f) && HasType(f, Record(ParametersValues(p)))
    ensures FieldExact(f, Record(ParametersValues(p)), false) <==> Survive(p)
  {
    Nothing();
    var f1, f2, f3 := Required(1, DATA), Required(2, DATA), Optional(3, DATA);
    var v1, v2, v3 := Raw(p.transitionId), Raw(p.startTime), Raw(p.unknown3);
    Cons(f3, v3, [], []);
    Cons(f2, v2, [f3] + [], [v3] + []);
    Cons(f1, v1, [f2] + ([f3] + []), [v2] + ([v3] + []));
    var vs := ParametersValues(p);
    assert Exact(PARAMETERS, vs) <==> p.transitionId != [] && p.startTime != [];
    ParametersEmpty(p);
    assert PARAMETERS[0] == f1 && ZeroEnd(PARAMETERS) == EOF;
  }

  lemma {:induction false} ParametersEmpty(p: TransitionParameters)
    ensures HaveTypes(PARAMETERS, ParametersValues(p))
    ensures Encode(PARAMETERS, ParametersValues(p)) == []
            <==> p.transitionId == [] && p.startTime == [] && p.unknown3 == []
    ensures ParametersValues(p) == Zeros(PARAMETERS)
            <==> p.transitionId == [] && p.startTime == [] && p.unknown3 == []
  {
    var f1, f2, f3 := Required(1, DATA), Required(2, DATA), Optional(3, DATA);
    var v1, v2, v3 := Raw(p.transitionId), Raw(p.startTime), Raw(p.unknown3);
    EncodeCons(f3, v3, [], []);
    EncodeCons(f2, v2, [f3] + [], [v3] + []);
    EncodeCons(f1, v1, [f2] + ([f3] + []), [v2] + ([v3] + []));
    WrittenLength(1, p.transitionId);
    WrittenLength(2, p.startTime);
    WrittenLength(3, p.unknown3);
    ZerosOfThree(f1, f2, f3);
    assert Zeros(PARAMETERS) == [Raw([]), Raw([]), Raw([])];
    assert ParametersValues(p) == [v1, v2, v3];
  }

  lemma {:induction false} ZerosOfThree(f1: Field, f2: Field, f3: Field)
    ensures Zeros([f1] + ([f2] + ([f3] + []))) == [ZeroOf(f1), ZeroOf(f2), ZeroOf(f3)]
  {
    var fs := [f1] + ([f2] + ([f3] + []));
    assert fs[1..] == [f2] + ([f3] + []) && fs[1..][1..] == [f3] + [] && fs[1..][1..][1..] == [];
    assert Zeros(fs[1..][1..]) == [ZeroOf(f3)] + Zeros([]);
  }

  lemma {:induction false} IntervalsBack(f6: Field, n6: uint16, f8: Field, n8: uint32)
    requires f6.kind == U16 && f8.kind == U32 && f6.tag == 6 && f8.tag == 8
    ensures var fs, vs := [f6] + ([f8] + []), [Num(n6)] + ([Num(n8)] + []);
            Typed(fs, vs) && NoBytes(fs) && KeyTags(fs) == {6, 8} && Exact(fs, vs)
  {
    Powers();
    Nothing();
    hide Exact, KeyTags, HaveTypes, Regular, Pow256;
    NumberCons(f8, n8, [], []);
    NoBytesCons(f8, []);
    NumberCons(f6, n6, [f8] + [], [Num(n8)] + []);
    NoBytesCons(f6, [f8] + []);
  }

  lemma {:induction false} CurveCons(f3: Field, n3: uint8, f5: Field, c: CurveConfig, fs: seq<Field>, vs: seq<Value>)
    requires f3.kind == U8 && f5.kind == Struct(CURVE) && f3.tag == 3 && f5.tag == 5
    requires Typed(fs, vs) && NoBytes(fs) && KeyTags(fs) == {6, 8} && Exact(fs, vs)
    ensures var fs, vs := [f3] + ([f5] + fs), [Num(n3)] + ([Record(CurveValues(c))] + vs);
            Typed(fs, vs) && NoBytes(fs) && KeyTags(fs) == {3, 5, 6, 8} && Exact(fs, vs)
  {
    Powers();
    CurveBack(c);
    hide Exact, KeyTags, HaveTypes, Regular, Pow256, Encode, CurveValues;
    StructCons(f5, CurveValues(c), fs, vs);
    NoBytesCons(f5, fs);
    NumberCons(f3, n3, [f5] + fs, [Record(CurveValues(c))] + vs);
    NoBytesCons(f3, [f5] + fs);
  }

  /** The fields of a configuration, required or not, after the one with the id. */
  lemma {:induction false} BodyBack(
      f2: Field, p: TransitionParameters, f3: Field, n3: uint8, f5: Field, c: CurveConfig,
      f6: Field, n6: uint16, f8: Field, n8: uint32)
    requires f2.kind == Struct(PARAMETERS) && f3.kind == U8 && f5.kind == Struct(CURVE)
    requires f6.kind == U16 && f8.kind == U32
    requires f2.tag == 2 && f3.tag == 3 && f5.tag == 5 && f6.tag == 6 && f8.tag == 8
    ensures var fs := [f2] + ([f3] + ([f5] + ([f6] + ([f8] + []))));
            var vs := [Record(ParametersValues(p))] +
                      ([Num(n3)] + ([Record(CurveValues(c))] + ([Num(n6)] + ([Num(n8)] + []))));
            && Typed(fs, vs) && NoBytes(fs) && KeyTags(fs) == {2, 3, 5, 6, 8}
            && (Exact(fs, vs) <==> Survive(p))
  {
    hide Exact, KeyTags, HaveTypes, Regular, FieldExact, Survive, Encode, CurveValues, ParametersValues;
    IntervalsBack(f6, n6, f8, n8);
    var fs6, vs6 := [f6] + ([f8] + []), [Num(n6)] + ([Num(n8)] + []);
    CurveCons(f3, n3, f5, c, fs6, vs6);
    var fs3, vs3 := [f3] + ([f5] + fs6), [Num(n3)] + ([Record(CurveValues(c))] + vs6);
    ParametersBack(f2, p);
    Cons(f2, Record(ParametersValues(p)), fs3, vs3);
    NoBytesCons(f2, fs3);
  }

  lemma {:induction false} ConfigBack(c: TransitionConfig)
    ensures Typed(CONFIG, ConfigValues(c)) && NoBytes(CONFIG) && Encode(CONFIG, ConfigValues(c)) != []
    ensures Exact(CONFIG, ConfigValues(c)) <==> Survive(c.parameters)
  {
    Powers();
    BodyBack(Required(2, Struct(PARAMETERS)), c.parameters, Optional(3, U8), c.enabled,
             Optional(5, Struct(CURVE)), c.curve, Optional(6, U16), c.updateInterval,
             Optional(8, U32), c.notifyIntervalThreshold);
    hide Exact, KeyTags, Encode, HaveTypes, Regular, NoBytes, Survive, Pow256;
    NumberCons(Required(1, U64), c.iid, CONFIG[1..], ConfigValues(c)[1..]);
    NoBytesCons(Required(1, U64), CONFIG[1..]);
    assert CONFIG == [Required(1, U64)] + CONFIG[1..];
    assert ConfigValues(c) == [Num(c.iid)] + ConfigValues(c)[1..];
    NumberWritten(CONFIG, ConfigValues(c), 0);
  }

  lemma {:induction false} UpdateBack(c: TransitionConfig)
    ensures var vs := [Record(ConfigValues(c))] + [];
            && Typed(UPDATE, vs) && Encode(UPDATE, vs) != []
            && (Exact(UPDATE, vs) <==> Survive(c.parameters))
  {
    Nothing();
    ConfigBack(c);
    hide Exact, Encode, NoBytes, Survive, KeyTags;
    StructCons(Required(1, Struct(CONFIG)), ConfigValues(c), [], []);
    EncodeCons(Required(1, Struct(CONFIG)), Record(ConfigValues(c)), [], []);
    WrittenLength(1, Encode(CONFIG, ConfigValues(c)));
  }

  lemma {:induction false} IidBack(iid: uint64)
    ensures var vs := [Num(iid)] + [];
            Typed(READ, vs) && Encode(READ, vs) != [] && Exact(READ, vs)
  {
    Powers();
    Nothing();
    NumberCons(Required(1, U64), iid, [], []);
    NumberWritten(READ, [Num(iid)] + [], 0);
  }

  /** A transition control write comes back if and only if the parameters of its update
      survive. */
  lemma {:induction false} ControlWriteRoundTrip(w: ControlWrite)
    ensures HaveTypes(CONTROL_WRITE, ControlWriteValues(w))
    ensures DecodeBytes(CONTROL_WRITE, Encode(CONTROL_WRITE, ControlWriteValues(w)))
            == Result(Done, ControlWriteValues(w), map[])
            <==> (w.update.Some? ==> Survive(w.update.value.parameters))
  {
    Nothing();
    var f1, f2 := Optional(1, Pointer(READ)), Optional(2, Pointer(UPDATE));
    var vs := ControlWriteValues(w);
    IidBack(if w.readIid.Some? then w.readIid.value else 0);
    UpdateBack(if w.update.Some? then w.update.value else SOME_CONFIG);
    hide Exact, Encode, DecodeBytes, Survive, KeyTags;
    Cons(f2, vs[1], [], []);
    Cons(f1, vs[0], [f2] + [], [vs[1]] + []);
    assert vs == [vs[0]] + ([vs[1]] + []);
    ExactRoundTrip(CONTROL_WRITE, vs);
  }

  const SOME_CONFIG :=
    TransitionConfig(0, TransitionParameters([], [], []), 0, CurveConfig([], 0, MultiplierRange(0, 0)), 0, 0)

  /** So does the body read back from the controller. */
  lemma {:induction false} ReadResponseRoundTrip(c: ReadConfig)
    ensures HaveTypes(READ_RESPONSE, ReadResponseValues(c))
    ensures DecodeBytes(READ_RESPONSE, Encode(READ_RESPONSE, ReadResponseValues(c)))
            == Result(Done, ReadResponseValues(c), map[])
            <==> Survive(c.parameters)
  {
    Powers();
    Nothing();
    var vs := ReadResponseValues(c)[0].vals;
    BodyBack(Required(2, Struct(PARAMETERS)), c.parameters, Required(3, U8), c.unknown3,
             Required(5, Struct(CURVE)), c.curve, Required(6, U16), c.updateInterval,
             Required(8, U32), c.notifyIntervalThreshold);
    hide Exact, KeyTags, Encode, HaveTypes, Regular, NoBytes, Survive, Pow256, DecodeBytes;
    NumberCons(Required(1, U64), c.iid, READ_CONFIG[1..], vs[1..]);
    NoBytesCons(Required(1, U64), READ_CONFIG[1..]);
    assert READ_CONFIG == [Required(1, U64)] + READ_CONFIG[1..];
    assert vs == [Num(c.iid)] + vs[1..];
    NumberWritten(READ_CONFIG, vs, 0);
    StructCons(Required(1, Struct(READ_CONFIG)), vs, [], []);
    ExactRoundTrip(READ_RESPONSE, ReadResponseValues(c));
  }

  /** And the status returned after a write. */
  lemma {:induction false} StatusResponseRoundTrip(s: StatusResponse)
    ensures HaveTypes(STATUS_RESPONSE, StatusResponseValues(s))
    ensures DecodeBytes(STATUS_RESPONSE, Encode(STATUS_RESPONSE, StatusResponseValues(s)))
            == Result(Done, StatusResponseValues(s), map[])
            <==> Survive(s.parameters)
  {
    Powers();
    Nothing();
    var f1, f2, f3 := Required(1, U64), Required(2, Struct(PARAMETERS)), Required(3, U64);
    var v1, v2, v3 := Num(s.iid), Record(ParametersValues(s.parameters)), Num(s.timeSinceStart);
    var vs := [v1] + ([v2] + ([v3] + []));
    ParametersBack(f2, s.parameters);
    hide Exact, Encode, NoBytes, Survive, Pow256, DecodeBytes, FieldExact;
    NumberCons(f3, s.timeSinceStart, [], []);
    NoBytesCons(f3, []);
    Cons(f2, v2, [f3] + [], [v3] + []);
    NoBytesCons(f2, [f3] + []);
    NumberCons(f1, s.iid, [f2] + ([f3] + []), [v2] + ([v3] + []));
    NoBytesCons(f1, [f2] + ([f3] + []));
    NumberWritten(STATUS, vs, 0);
    StructCons(Required(1, Struct(STATUS)), vs, [], []);
    ExactRoundTrip(STATUS_RESPONSE, StatusResponseValues(s));
  }
}
