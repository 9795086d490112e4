/** The TLV8 byte format: items, fragmentation of long values, and the folding
    of a byte stream into one queue of buckets per tag. */
module Tlv8Format {
  import opened Bytes

  datatype RawItem = Item(tag: byte, payload: seq<byte>)
  type Item = i: RawItem | |i.payload| <= 255 witness Item(0, [])

  const DELIMITER: Item := Item(0, [])

  function ItemBytes(i: Item): seq<byte> {
    [i.tag, |i.payload|] + i.payload
  }

  function Serialize(items: seq<Item>): seq<byte>
  {
    if items == [] then []
    else ItemBytes(items[0]) + Serialize(items[1..])
  }

  /** A value longer than 255 bytes is cut into full fragments and a rest;
      an empty value has no item at all. */
  function Fragments(tag: byte, v: seq<byte>): seq<Item>
  {
    if v == [] then []
    else if |v| <= 255 then [Item(tag, v)]
    else [Item(tag, v[..255])] + Fragments(tag, v[255..])
  }

  // ---- The reader's map: no queue is empty, and no bucket in a queue is. ----

  type Queue = q: seq<seq<byte>> | q != [] && (forall i :: 0 <= i < |q| ==> q[i] != []) witness [[0]]
  type Buckets = map<byte, Queue>

  function Add(m: Buckets, afterDelimiter: bool, i: Item): Buckets
  {
    if i.payload == [] then m
    else if i.tag !in m then m[i.tag := [i.payload]]
    else if afterDelimiter then m[i.tag := m[i.tag] + [i.payload]]
    else m[i.tag := [m[i.tag][0] + i.payload]]
  }

  function Fold(items: seq<Item>, m: Buckets, afterDelimiter: bool): (Buckets, bool)
  {
    if items == [] then (m, afterDelimiter)
    else Fold(items[1..], Add(m, afterDelimiter, items[0]), items[0] == DELIMITER)
  }

  datatype Truncation = Eof | UnexpectedEof
  datatype ReadResult = Parsed(buckets: Buckets) | Failed(error: Truncation)

  /** A stream that ends right before a length byte or right before a value
      fails with the plain end-of-file error; one that ends inside a value
      fails with the unexpected end-of-file error. */
  function Read(bs: seq<byte>, m: Buckets, afterDelimiter: bool): ReadResult
  {
    if bs == [] then Parsed(m)
    else if |bs| == 1 then Failed(Eof)
    else if |bs| - 2 < bs[1] then Failed(if |bs| == 2 then Eof else UnexpectedEof)
    else
      var i := Item(bs[0], bs[2..2 + bs[1]]);
      Read(bs[2 + bs[1]..], Add(m, afterDelimiter, i), i == DELIMITER)
  }

  function ReadAll(bs: seq<byte>): ReadResult {
    Read(bs, map[], false)
  }

  // ---- Streams of items ----

  lemma {:induction false} FoldAppend(xs: seq<Item>, ys: seq<Item>, m: Buckets, afterDelimiter: bool)
    ensures Fold(xs + ys, m, afterDelimiter)
            == var (m', d) := Fold(xs, m, afterDelimiter); Fold(ys, m', d)
  {
    if xs == [] {
      assert xs + ys == ys;
    } else {
      assert (xs + ys)[1..] == xs[1..] + ys;
      FoldAppend(xs[1..], ys, Add(m, afterDelimiter, xs[0]), xs[0] == DELIMITER);
    }
  }

  lemma {:induction false} SerializeAppend(xs: seq<Item>, ys: seq<Item>)
    ensures Serialize(xs + ys) == Serialize(xs) + Serialize(ys)
  {
    if xs == [] {
      assert xs + ys == ys;
    } else {
      assert (xs + ys)[1..] == xs[1..] + ys;
      SerializeAppend(xs[1..], ys);
    }
  }

  lemma {:induction false} ReadSerialized(items: seq<Item>, m: Buckets, afterDelimiter: bool)
    ensures Read(Serialize(items), m, afterDelimiter) == Parsed(Fold(items, m, afterDelimiter).0)
  {
    if items != [] {
      var bs, i := Serialize(items), items[0];
      assert bs[2..2 + bs[1]] == i.payload;
      assert bs[2 + bs[1]..] == Serialize(items[1..]);
      ReadSerialized(items[1..], Add(m, afterDelimiter, i), i == DELIMITER);
    }
  }

  /** The items of a stream, as far as it can be cut into items. */
  function Split(bs: seq<byte>): seq<Item>
  {
    if |bs| < 2 || |bs| - 2 < bs[1] then []
    else [Item(bs[0], bs[2..2 + bs[1]])] + Split(bs[2 + bs[1]..])
  }

  lemma {:induction false} SplitFirst(i: Item, rest: seq<byte>)
    ensures Split(ItemBytes(i) + rest) == [i] + Split(rest)
  {
    var bs := ItemBytes(i) + rest;
    assert bs[2..2 + bs[1]] == i.payload && bs[2 + bs[1]..] == rest;
  }

  lemma {:induction false} SerializeCons(i: Item, items: seq<Item>)
    ensures Serialize([i] + items) == ItemBytes(i) + Serialize(items)
  {
    assert ([i] + items)[1..] == items;
  }

  lemma {:induction false} SameTail(head: seq<byte>, x: seq<byte>, y: seq<byte>)
    ensures head + x == head + y <==> x == y
  {
    assert (head + x)[|head|..] == x && (head + y)[|head|..] == y;
  }

  lemma {:induction false} ReadSplits(bs: seq<byte>, m: Buckets, afterDelimiter: bool)
    ensures Read(bs, m, afterDelimiter).Parsed? <==> Serialize(Split(bs)) == bs
  {
    if |bs| >= 2 && |bs| - 2 >= bs[1] {
      var i, rest := Item(bs[0], bs[2..2 + bs[1]]), bs[2 + bs[1]..];
      assert bs == ItemBytes(i) + rest;
      hide Add, Serialize, Split, ItemBytes;
      ReadSplits(rest, Add(m, afterDelimiter, i), i == DELIMITER);
    }
  }

  /** Reading succeeds exactly on the streams that are a sequence of whole items. */
  lemma {:induction false} ReadAccepts(bs: seq<byte>, m: Buckets, afterDelimiter: bool)
    ensures Read(bs, m, afterDelimiter).Parsed? <==> Serialize(Split(bs)) == bs
    ensures Read(bs, m, afterDelimiter).Parsed? <==> exists items :: Serialize(items) == bs
  {
    hide Read, Serialize, Split;
    ReadSplits(bs, m, afterDelimiter);
    if items :| Serialize(items) == bs {
      ReadSerialized(items, m, afterDelimiter);
    }
  }

  // ---- Streams without delimiters ----

  predicate DelimiterFree(items: seq<Item>) {
    DELIMITER !in items
  }

  function Select(items: seq<Item>, tag: byte): seq<Item>
  {
    if items == [] then []
    else if items[0].tag == tag then [items[0]] + Select(items[1..], tag)
    else Select(items[1..], tag)
  }

  function Payloads(items: seq<Item>): seq<byte>
  {
    if items == [] then [] else items[0].payload + Payloads(items[1..])
  }

  function FrontOf(m: Buckets, tag: byte): seq<byte> {
    if tag in m then m[tag][0] else []
  }

  /** Adding one item extends the bucket of its own tag and no other. */
  lemma {:induction false} AddFront(m: Buckets, i: Item, tag: byte)
    requires tag in m ==> |m[tag]| == 1
    ensures var m' := Add(m, false, i);
            && (tag in m' ==> |m'[tag]| == 1)
            && FrontOf(m', tag) == FrontOf(m, tag) + (if i.tag == tag then i.payload else [])
  {
    assert FrontOf(m, tag) + [] == FrontOf(m, tag) && [] + i.payload == i.payload;
  }

  lemma {:induction false} SelectStep(items: seq<Item>, tag: byte)
    requires items != []
    ensures Payloads(Select(items, tag))
            == (if items[0].tag == tag then items[0].payload else []) + Payloads(Select(items[1..], tag))
  {
    if items[0].tag == tag {
      assert Select(items, tag)[1..] == Select(items[1..], tag);
    }
  }

  lemma {:induction false} FoldDelimiterFree(items: seq<Item>, m: Buckets, tag: byte)
    requires DelimiterFree(items)
    requires tag in m ==> |m[tag]| == 1
    ensures var m' := Fold(items, m, false).0;
            var all := FrontOf(m, tag) + Payloads(Select(items, tag));
            if all == [] then tag !in m' else tag in m' && m'[tag] == [all]
  {
    if items == [] {
      assert FrontOf(m, tag) + [] == FrontOf(m, tag);
    } else {
      var i := items[0];
      hide Add, Select, Payloads, FrontOf;
      AddFront(m, i, tag);
      FoldDelimiterFree(items[1..], Add(m, false, i), tag);
      SelectStep(items, tag);
      Associate(FrontOf(m, tag), if i.tag == tag then i.payload else [], Payloads(Select(items[1..], tag)));
    }
  }

  /** Without delimiters the reader keeps, for each tag, one bucket: the payloads
      carrying that tag, joined in stream order. Tags with nothing but empty
      payloads have no entry. */
  lemma {:induction false} DelimiterFreeBuckets(items: seq<Item>, tag: byte)
    requires DelimiterFree(items)
    ensures ReadAll(Serialize(items)).Parsed?
    ensures var m := ReadAll(Serialize(items)).buckets;
            var all := Payloads(Select(items, tag));
            if all == [] then tag !in m else tag in m && m[tag] == [all]
  {
    ReadSerialized(items, map[], false);
    FoldDelimiterFree(items, map[], tag);
    assert [] + Payloads(Select(items, tag)) == Payloads(Select(items, tag));
  }

  /** Items of different tags may be reordered freely. */
  lemma {:induction false} ReorderDelimiterFree(xs: seq<Item>, ys: seq<Item>)
    requires DelimiterFree(xs) && DelimiterFree(ys)
    requires forall tag :: Select(xs, tag) == Select(ys, tag)
    ensures ReadAll(Serialize(xs)) == ReadAll(Serialize(ys))
  {
    var mx, my := ReadAll(Serialize(xs)), ReadAll(Serialize(ys));
    ReadSerialized(xs, map[], false);
    ReadSerialized(ys, map[], false);
    forall tag: byte
      ensures tag in mx.buckets <==> tag in my.buckets
      ensures tag in mx.buckets ==> mx.buckets[tag] == my.buckets[tag]
    {
      DelimiterFreeBuckets(xs, tag);
      DelimiterFreeBuckets(ys, tag);
    }
    assert mx.buckets == my.buckets;
  }

  // ---- Fragmented values ----

  lemma {:induction false} FragmentsFold(tag: byte, v: seq<byte>, m: Buckets, afterDelimiter: bool)
    requires v != []
    requires tag in m ==> !afterDelimiter
    ensures Fold(Fragments(tag, v), m, afterDelimiter) == (m[tag := [FrontOf(m, tag) + v]], false)
  {
    hide Fold, Add, FrontOf;
    if |v| <= 255 {
      OneFragment(tag, v, m, afterDelimiter);
    } else {
      var head, tail := v[..255], v[255..];
      var q := FrontOf(m, tag) + head;
      OneFragment(tag, head, m, afterDelimiter);
      FragmentsFold(tag, tail, m[tag := [q]], false);
      assert v == head + tail;
      Associate(FrontOf(m, tag), head, tail);
      Overwrite(m, tag, [q], [q + tail]);
      assert Fragments(tag, head) == [Item(tag, head)];
      assert Fragments(tag, v) == Fragments(tag, head) + Fragments(tag, tail);
      FoldAppend(Fragments(tag, head), Fragments(tag, tail), m, afterDelimiter);
    }
  }

  lemma {:induction false} OneFragment(tag: byte, v: seq<byte>, m: Buckets, afterDelimiter: bool)
    requires 0 < |v| <= 255
    requires tag in m ==> !afterDelimiter
    ensures var q := FrontOf(m, tag) + v;
            && Fold(Fragments(tag, v), m, afterDelimiter) == (m[tag := [q]], false)
            && FrontOf(m[tag := [q]], tag) == q
  {
    assert tag !in m ==> FrontOf(m, tag) + v == v;
    assert [Item(tag, v)][1..] == [];
  }

  lemma {:induction false} Overwrite(m: Buckets, tag: byte, q: Queue, q': Queue)
    ensures m[tag := q][tag := q'] == m[tag := q']
  {
  }

  /** A single fragment right after a delimiter opens a new bucket. */
  lemma {:induction false} FragmentAfterDelimiter(tag: byte, v: seq<byte>, m: Buckets)
    requires 0 < |v| <= 255 && tag in m
    ensures Fold(Fragments(tag, v), m, true) == (m[tag := m[tag] + [v]], false)
  {
    assert Fold([Item(tag, v)], m, true) == Fold([], Add(m, true, Item(tag, v)), false);
  }

  /** More than one fragment right after a delimiter is glued to the oldest
      bucket, and every later bucket of that tag is dropped. */
  lemma {:induction false} LongValueAfterDelimiter(tag: byte, v: seq<byte>, m: Buckets)
    requires |v| > 255 && tag in m
    ensures Fold(Fragments(tag, v), m, true) == (m[tag := [m[tag][0] + v[255..]]], false)
  {
    var head: Item := Item(tag, v[..255]);
    var tail := v[255..];
    var m1 := Add(m, true, head);
    assert m1[tag] == m[tag] + [v[..255]] && FrontOf(m1, tag) == m[tag][0];
    FragmentsFold(tag, tail, m1, false);
    FoldAppend([head], Fragments(tag, tail), m, true);
    assert Fold([head], m, true) == Fold([], m1, false);
    assert m1[tag := [m[tag][0] + tail]] == m[tag := [m[tag][0] + tail]];
  }

  /** What `writeBytes` writes for a value of any length reads back as that value. */
  lemma {:induction false} WrittenValueReadsBack(tag: byte, v: seq<byte>)
    ensures ReadAll(Serialize(Fragments(tag, v))) == Parsed(if v == [] then map[] else map[tag := [v]])
  {
    ReadSerialized(Fragments(tag, v), map[], false);
    if v != [] {
      FragmentsFold(tag, v, map[], false);
      assert [] + v == v;
    }
  }

  lemma {:induction false} WrittenLength(tag: byte, v: seq<byte>)
    ensures |Serialize(Fragments(tag, v))| == |v| + 2 * ((|v| + 254) / 255)
    decreases |v|
  {
    if v != [] {
      var head, tail := if |v| <= 255 then v else v[..255], if |v| <= 255 then [] else v[255..];
      assert Fragments(tag, v) == [Item(tag, head)] + Fragments(tag, tail);
      WrittenLength(tag, tail);
      hide Fragments, Serialize;
      SerializeCons(Item(tag, head), Fragments(tag, tail));
    }
  }

  // ---- Lists: values of one tag, separated by delimiters ----

  function Delimited(tag: byte, vs: seq<seq<byte>>, first: bool): seq<Item>
  {
    if vs == [] then []
    else
      (if first then [] else [DELIMITER]) + Fragments(tag, vs[0]) + Delimited(tag, vs[1..], false)
  }

  /** The values a delimited list can carry: none is empty, and all but the
      first fit into one fragment. */
  predicate Separable(vs: seq<seq<byte>>) {
    forall i :: 0 <= i < |vs| ==> vs[i] != [] && (i > 0 ==> |vs[i]| <= 255)
  }

  function Put(m: Buckets, tag: byte, q: seq<seq<byte>>): Buckets
    requires forall i :: 0 <= i < |q| ==> q[i] != []
  {
    if q == [] then m else m[tag := q]
  }

  /** Folding one more list value: the queue it leaves, from any state. */
  lemma {:induction false} DelimitedStep(tag: byte, v: seq<byte>, m: Buckets, d: bool)
    ensures Fold([DELIMITER] + Fragments(tag, v), m, d) ==
            if v == [] then (m, true)
            else if tag !in m then (m[tag := [v]], false)
            else if |v| <= 255 then (m[tag := m[tag] + [v]], false)
            else (m[tag := [m[tag][0] + v[255..]]], false)
  {
    FoldAppend([DELIMITER], Fragments(tag, v), m, d);
    assert Fold([DELIMITER], m, d) == Fold([], m, true);
    if v != [] {
      if tag !in m {
        FragmentsFold(tag, v, m, true);
        assert FrontOf(m, tag) + v == v;
      } else if |v| <= 255 {
        FragmentAfterDelimiter(tag, v, m);
      } else {
        LongValueAfterDelimiter(tag, v, m);
      }
    }
  }

  // ---- What a delimited list leaves behind ----

  /** One more value: an empty one leaves no trace, a short one is a new bucket, a long
      one replaces all buckets by the oldest with its tail appended. */
  function KeptOne(q: seq<seq<byte>>, v: seq<byte>): seq<seq<byte>> {
    if v == [] then q
    else if q == [] then [v]
    else if |v| <= 255 then q + [v]
    else [q[0] + v[255..]]
  }

  function Kept(q: seq<seq<byte>>, vs: seq<seq<byte>>): seq<seq<byte>>
    decreases |vs|
  {
    if vs == [] then q else Kept(KeptOne(q, vs[0]), vs[1..])
  }

  predicate NoneEmpty(q: seq<seq<byte>>) {
    forall i :: 0 <= i < |q| ==> q[i] != []
  }

  lemma {:induction false} KeptNoneEmpty(q: seq<seq<byte>>, vs: seq<seq<byte>>)
    requires NoneEmpty(q)
    ensures NoneEmpty(Kept(q, vs)) && (q != [] ==> Kept(q, vs) != [])
    decreases |vs|
  {
    if vs != [] {
      KeptNoneEmpty(KeptOne(q, vs[0]), vs[1..]);
    }
  }

  function QueueAt(m: Buckets, tag: byte): (q: seq<seq<byte>>)
    ensures NoneEmpty(q)
  {
    if tag in m then m[tag] else []
  }

  lemma {:induction false} TailKeeps(tag: byte, vs: seq<seq<byte>>, m: Buckets, d: bool)
    ensures NoneEmpty(Kept(QueueAt(m, tag), vs))
    ensures Fold(Delimited(tag, vs, false), m, d).0 == Put(m, tag, Kept(QueueAt(m, tag), vs))
    decreases |vs|
  {
    KeptNoneEmpty(QueueAt(m, tag), vs);
    if vs != [] {
      var q1 := KeptOne(QueueAt(m, tag), vs[0]);
      DelimitedStep(tag, vs[0], m, d);
      var (m1, d1) := Fold([DELIMITER] + Fragments(tag, vs[0]), m, d);
      hide Fold, Fragments;
      KeptNoneEmpty(q1, vs[1..]);
      assert m1 == Put(m, tag, q1) && QueueAt(m1, tag) == q1;
      TailKeeps(tag, vs[1..], m1, d1);
      FoldAppend([DELIMITER] + Fragments(tag, vs[0]), Delimited(tag, vs[1..], false), m, d);
      PutTwice(m, tag, q1, Kept(q1, vs[1..]));
    }
  }

  lemma {:induction false} PutTwice(m: Buckets, tag: byte, q: seq<seq<byte>>, q': seq<seq<byte>>)
    requires NoneEmpty(q) && NoneEmpty(q') && (q != [] ==> q' != [])
    ensures Put(Put(m, tag, q), tag, q') == Put(m, tag, q')
  {
  }

  /** What any delimited list of values leaves under its tag. */
  lemma {:induction false} DelimitedFold(tag: byte, vs: seq<seq<byte>>, m: Buckets, d: bool)
    requires tag !in m
    ensures NoneEmpty(Kept([], vs))
    ensures Fold(Delimited(tag, vs, true), m, d).0 == Put(m, tag, Kept([], vs))
  {
    KeptNoneEmpty([], vs);
    if vs != [] {
      var v := vs[0];
      var (m1, d1) := Fold(Fragments(tag, v), m, d);
      if v != [] {
        FragmentsFold(tag, v, m, d);
        assert FrontOf(m, tag) + v == v;
      }
      hide Fold, Fragments;
      assert [] + Fragments(tag, v) == Fragments(tag, v);
      assert m1 == Put(m, tag, KeptOne([], v)) && QueueAt(m1, tag) == KeptOne([], v);
      FoldAppend(Fragments(tag, v), Delimited(tag, vs[1..], false), m, d);
      TailKeeps(tag, vs[1..], m1, d1);
      KeptNoneEmpty(KeptOne([], v), vs[1..]);
      PutTwice(m, tag, KeptOne([], v), Kept([], vs));
    }
  }

  /** What any delimited list of values reads back as. */
  lemma {:induction false} DelimitedKeeps(tag: byte, vs: seq<seq<byte>>)
    ensures NoneEmpty(Kept([], vs))
    ensures ReadAll(Serialize(Delimited(tag, vs, true))) == Parsed(Put(map[], tag, Kept([], vs)))
  {
    hide Fold, Delimited, Serialize, Read, Kept;
    ReadSerialized(Delimited(tag, vs, true), map[], false);
    DelimitedFold(tag, vs, map[], false);
  }

  lemma {:induction false} KeptLength(q: seq<seq<byte>>, vs: seq<seq<byte>>)
    ensures |Kept(q, vs)| <= |q| + |vs|
    ensures |Kept(q, vs)| == |q| + |vs| ==>
              forall i :: 0 <= i < |vs| ==> vs[i] != [] && (i > 0 || q != [] ==> |vs[i]| <= 255)
    decreases |vs|
  {
    if vs != [] {
      KeptLength(KeptOne(q, vs[0]), vs[1..]);
      assert forall i :: 0 < i < |vs| ==> vs[i] == vs[1..][i - 1];
    }
  }

  /** All values are kept exactly when they are separable. */
  lemma {:induction false} SeparableKept(vs: seq<seq<byte>>)
    ensures Separable(vs) ==> Kept([], vs) == vs
    ensures !Separable(vs) ==> |Kept([], vs)| < |vs|
  {
    KeptLength([], vs);
    if Separable(vs) && vs != [] {
      assert KeptOne([], vs[0]) == [vs[0]];
      ShortKept([vs[0]], vs[1..]);
    }
  }

  /** A delimited list reads back exactly when it is separable; otherwise
      buckets are lost and the queue is shorter than the list. */
  lemma {:induction false} DelimitedReadsBack(tag: byte, vs: seq<seq<byte>>)
    ensures ReadAll(Serialize(Delimited(tag, vs, true))).Parsed?
    ensures var m := ReadAll(Serialize(Delimited(tag, vs, true))).buckets;
            if Separable(vs) then m == Put(map[], tag, vs) else |QueueAt(m, tag)| < |vs|
  {
    DelimitedKeeps(tag, vs);
    SeparableKept(vs);
  }

  lemma {:induction false} KeptAppend(q: seq<seq<byte>>, xs: seq<seq<byte>>, ys: seq<seq<byte>>)
    ensures Kept(q, xs + ys) == Kept(Kept(q, xs), ys)
    decreases |xs|
  {
    if xs == [] {
      assert xs + ys == ys;
    } else {
      assert (xs + ys)[1..] == xs[1..] + ys;
      KeptAppend(KeptOne(q, xs[0]), xs[1..], ys);
    }
  }

  predicate Short(vs: seq<seq<byte>>) {
    forall i :: 0 <= i < |vs| ==> 0 < |vs[i]| <= 255
  }

  lemma {:induction false} ShortKept(q: seq<seq<byte>>, vs: seq<seq<byte>>)
    requires q != [] && Short(vs)
    ensures Kept(q, vs) == q + vs
    decreases |vs|
  {
    if vs == [] {
      assert q + vs == q;
    } else {
      ShortKept(q + [vs[0]], vs[1..]);
      assert (q + [vs[0]]) + vs[1..] == q + vs;
    }
  }

  /** A long value behind others swallows all but the first of them, gives its tail to
      that one, and leaves what follows alone. */
  lemma {:induction false} LongValueSurvivors(
      tag: byte, first: seq<byte>, before: seq<seq<byte>>, long: seq<byte>, after: seq<seq<byte>>)
    requires first != [] && Short(before) && |long| > 255 && Short(after)
    ensures ReadAll(Serialize(Delimited(tag, [first] + before + [long] + after, true)))
            == Parsed(map[tag := [first + long[255..]] + after])
  {
    var head := [first] + before;
    DelimitedKeeps(tag, head + [long] + after);
    KeptAppend([], head + [long], after);
    KeptAppend([], head, [long]);
    KeptAppend([], [first], before);
    assert Kept([], [first]) == Kept([first], []);
    ShortKept([first], before);
    assert Kept(head, [long]) == Kept([first + long[255..]], []);
    ShortKept([first + long[255..]], after);
  }
}
