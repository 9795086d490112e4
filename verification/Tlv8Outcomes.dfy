/** How decoding reacts to what is missing or malformed. */
module Tlv8Outcomes {
  import opened Bytes
  import opened Tlv8Format
  import opened Tlv8Schema

  /** The bucket can be cut into items that decode to an element without an error. */
  predicate Sane(fs: seq<Field>, b: seq<byte>) {
    ReadAll(b).Parsed? && DecodeBytes(fs, b).status == Done
  }

  /** The position of the first bucket that is not sane. */
  function FirstBad(fs: seq<Field>, q: seq<seq<byte>>): (k: nat)
    ensures k <= |q| && (k < |q| ==> !Sane(fs, q[k])) && forall i :: 0 <= i < k ==> Sane(fs, q[i])
  {
    if q == [] || !Sane(fs, q[0]) then 0 else 1 + FirstBad(fs, q[1..])
  }

  /** The bucket is the last one that the reader holds. */
  predicate IsLast(m: Buckets, tag: byte, k: nat) {
    tag in m && k == |m[tag]| - 1 && m.Keys == {tag}
  }

  lemma {:induction false} EmptyAfterPop(m: Buckets, tag: byte)
    requires tag in m
    ensures Pop(m, tag) == map[] <==> IsLast(m, tag, 0)
  {
    if |m[tag]| == 1 {
      assert (m - {tag}).Keys == m.Keys - {tag};
      assert m.Keys - {tag} == {} <==> m.Keys == {tag};
      assert (m - {tag}).Keys == {} <==> m - {tag} == map[];
    } else {
      assert tag in Pop(m, tag);
    }
  }

  lemma {:induction false} LastPopped(m: Buckets, tag: byte, k: nat)
    requires tag in m && 0 < k
    ensures IsLast(Pop(m, tag), tag, k - 1) <==> IsLast(m, tag, k)
  {
    if |m[tag]| > 1 {
      assert Pop(m, tag).Keys == m.Keys;
    }
  }

  /** One iteration of the list loop. */
  lemma {:induction false} OneBucket(tag: byte, fs: seq<Field>, m: Buckets)
    requires tag in m
    ensures var d, r, m' := DecodeBytes(fs, m[tag][0]), DecodeList(tag, fs, m), Pop(m, tag);
            if ReadAll(m[tag][0]).Failed? then r == ListResult(Done, [], m')
            else if d.status == Done then r == Prepend([d.vals], DecodeList(tag, fs, m'))
            else
              && |r.elems| == (if d.status == EOF then 1 else 0)
              && r.status == (if d.status.Error? && m' == map[] then Done else d.status)
  {
    hide DecodeBytes, ReadAll;
    var m' := Pop(m, tag);
    if m' == map[] {
      assert DecodeList(tag, fs, m') == ListResult(Done, [], m');
      assert [DecodeBytes(fs, m[tag][0]).vals] + [] == [DecodeBytes(fs, m[tag][0]).vals];
    }
  }

  /** What becomes of the list at bucket `k` of the queue. */
  predicate EndsAt(tag: byte, fs: seq<Field>, m: Buckets, k: nat, r: ListResult) {
    var q := QueueAt(m, tag);
    && k <= |q| && k <= |r.elems|
    && if k == |q| then r.status == Done && |r.elems| == k
       else if ReadAll(q[k]).Failed? then r.status == Done && |r.elems| == k
       else
         var e := DecodeBytes(fs, q[k]).status;
         && |r.elems| == (if e == EOF then k + 1 else k)
         && r.status == (if e.Error? && IsLast(m, tag, k) then Done else e)
  }

  lemma {:induction false} EndsOneLater(tag: byte, fs: seq<Field>, m: Buckets, k: nat, r: ListResult, v: seq<Value>)
    requires tag in m && EndsAt(tag, fs, Pop(m, tag), k, r)
    ensures EndsAt(tag, fs, m, k + 1, Prepend([v], r))
  {
    hide DecodeBytes, ReadAll, IsLast;
    assert QueueAt(Pop(m, tag), tag) == m[tag][1..];
    LastPopped(m, tag, k + 1);
  }

  /** What a named list makes of its buckets: the elements before the first one that is
      not sane; that one ends the list, silently if it cannot be cut into items, and
      otherwise with its error unless nothing is left to read. */
  lemma {:induction false} ListOutcome(tag: byte, fs: seq<Field>, m: Buckets)
    ensures var q, r := QueueAt(m, tag), DecodeList(tag, fs, m);
            var k := FirstBad(fs, q);
            && EndsAt(tag, fs, m, k, r)
            && forall i :: 0 <= i < k ==> r.elems[i] == DecodeBytes(fs, q[i]).vals
    decreases |QueueAt(m, tag)|
  {
    if tag in m {
      var q, m' := m[tag], Pop(m, tag);
      assert QueueAt(m', tag) == q[1..];
      hide DecodeBytes, ReadAll, IsLast, DecodeList, Pop;
      OneBucket(tag, fs, m);
      if Sane(fs, q[0]) {
        ListOutcome(tag, fs, m');
        EndsOneLater(tag, fs, m, FirstBad(fs, q[1..]), DecodeList(tag, fs, m'), DecodeBytes(fs, q[0]).vals);
      } else {
        EmptyAfterPop(m, tag);
      }
    }
  }

  /** A named list swallows buckets without an error exactly when one cannot be cut
      into items, or the reader's very last one ends in the middle of a nested item. */
  lemma {:induction false} ListSwallowsIff(tag: byte, fs: seq<Field>, m: Buckets)
    ensures var q, r := QueueAt(m, tag), DecodeList(tag, fs, m);
            var k := FirstBad(fs, q);
            r.status == Done && |r.elems| < |q|
            <==> k < |q| && (ReadAll(q[k]).Failed?
                             || (IsLast(m, tag, k) && DecodeBytes(fs, q[k]).status == Error(UnexpectedEof)))
  {
    ListOutcome(tag, fs, m);
    hide DecodeBytes, ReadAll, DecodeList, FirstBad;
    var q := QueueAt(m, tag);
    var k := FirstBad(fs, q);
    if k < |q| && ReadAll(q[k]).Parsed? {
      var e := DecodeBytes(fs, q[k]).status;
      assert e.Error? ==> e.e == Eof || e.e == UnexpectedEof;
    }
  }

  // ---- A list that loses its element ----

  const NUMBERS := [Field(1, false, List([Field(1, false, Scalar(Unsigned(1)))]))]

  /** A one-byte element cannot be cut into items: it is lost, and no error tells. */
  lemma {:induction false} ElementLost()
    ensures DecodeBytes(NUMBERS, [1, 1, 5]) == Result(Done, [Many([])], map[])
  {
    var bs: seq<byte> := [1, 1, 5];
    assert bs[2..3] == [5] && bs[3..] == [];
    assert ReadAll(bs) == Parsed(map[1 := [[5]]]);
    assert ReadAll([5]).Failed?;
    assert NUMBERS[1..] == [];
    assert DecodeField(NUMBERS[0], map[1 := [[5]]]) == FieldResult(Done, Many([]), map[]);
  }

  /** Decoding a field ends with the end-of-file error exactly for a required scalar
      that is missing, and for a named list with an element that ends so before the
      input does. A missing nested struct, required or not, is no error. */
  lemma {:induction false} EofIff(f: Field, m: Buckets)
    ensures DecodeField(f, m).status == EOF
            <==> match f.kind
                 case Scalar(l) => !f.optional && f.tag !in m
                 case Struct(fs) => false
                 case Pointer(fs) => false
                 case List(fs) =>
                   var q := QueueAt(m, f.tag);
                   var k := FirstBad(fs, q);
                   k < |q| && ReadAll(q[k]).Parsed? && DecodeBytes(fs, q[k]).status == EOF && !IsLast(m, f.tag, k)
                 case Inline(fs) => false
  {
    match f.kind
    case Scalar(l) =>
    case Struct(fs) =>
    case Pointer(fs) =>
    case List(fs) => ListOutcome(f.tag, fs, m);
    case Inline(fs) => InlineNeverEof(fs, m);
  }

  lemma {:induction false} InlineNeverEof(fs: seq<Field>, m: Buckets)
    ensures DecodeInline(fs, m).status != EOF
    decreases Slots(m)
  {
    var d := DecodeFields(fs, m);
    if d.status == Done && Slots(d.rest) < Slots(m) {
      InlineNeverEof(fs, d.rest);
    }
  }
}
