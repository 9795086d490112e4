/** Bytes, little-endian integers and fixed-width conversions, as Go's
    `encoding/binary` and its integer conversions define them. */
module Bytes {
  type byte = b: int | 0 <= b < 256

  function Pow256(n: nat): (p: nat)
    ensures p > 0
  {
    if n == 0 then 1 else 256 * Pow256(n - 1)
  }

  /** The `n` low-order bytes of `v`, lowest first. */
  function LittleEndian(v: nat, n: nat): (b: seq<byte>)
    ensures |b| == n
  {
    if n == 0 then [] else [v % 256] + LittleEndian(v / 256, n - 1)
  }

  function FromLittleEndian(b: seq<byte>): (v: nat)
    ensures v < Pow256(|b|)
  {
    if b == [] then 0 else b[0] + 256 * FromLittleEndian(b[1..])
  }

  lemma {:induction false} LittleEndianRoundTrip(v: nat, n: nat)
    requires v < Pow256(n)
    ensures FromLittleEndian(LittleEndian(v, n)) == v
  {
    if n > 0 {
      LittleEndianRoundTrip(v / 256, n - 1);
      assert LittleEndian(v, n)[1..] == LittleEndian(v / 256, n - 1);
    }
  }

  lemma {:induction false} FromLittleEndianInjective(b: seq<byte>, c: seq<byte>)
    requires |b| == |c|
    ensures FromLittleEndian(b) == FromLittleEndian(c) <==> b == c
  {
    if b != [] {
      FromLittleEndianInjective(b[1..], c[1..]);
      assert b == [b[0]] + b[1..] && c == [c[0]] + c[1..];
    }
  }

  /** What bytes spell, low byte first, in every width that is read. */
  lemma {:induction false} ByteSum(b: seq<byte>)
    ensures |b| == 1 ==> FromLittleEndian(b) == b[0] as int
    ensures |b| == 2 ==> FromLittleEndian(b) == b[0] as int + 0x100 * b[1] as int
    ensures |b| == 4 ==>
              FromLittleEndian(b)
              == b[0] as int + 0x100 * b[1] as int + 0x1_0000 * b[2] as int + 0x100_0000 * b[3] as int
    ensures |b| == 8 ==>
              FromLittleEndian(b) == FromLittleEndian(b[..4]) + 0x1_0000_0000 * FromLittleEndian(b[4..])
  {
    if |b| == 1 {
      assert b[1..] == [];
    } else if |b| == 2 {
      ByteSum(b[1..]);
    } else if |b| == 4 {
      assert b[1..][1..] == b[2..];
      ByteSum(b[2..]);
    } else if |b| == 8 {
      FourBytesMore(b[..4], b[4..]);
      assert b == b[..4] + b[4..];
    }
  }

  lemma {:induction false} FourBytesMore(x: seq<byte>, y: seq<byte>)
    requires |x| == 4
    ensures FromLittleEndian(x + y) == FromLittleEndian(x) + 0x1_0000_0000 * FromLittleEndian(y)
  {
    OneByteMore(x, y);
    OneByteMore(x[1..], y);
    OneByteMore(x[1..][1..], y);
    OneByteMore(x[1..][1..][1..], y);
    assert x[1..][1..][1..][1..] == [] && [] + y == y;
  }

  lemma {:induction false} OneByteMore(x: seq<byte>, y: seq<byte>)
    requires x != []
    ensures FromLittleEndian(x + y) == x[0] as int + 256 * FromLittleEndian(x[1..] + y)
    ensures FromLittleEndian(x) == x[0] as int + 256 * FromLittleEndian(x[1..])
  {
    assert (x + y)[1..] == x[1..] + y;
  }

  lemma {:induction false} LittleEndianPrefix(v: nat, n: nat, k: nat)
    requires k <= n
    ensures LittleEndian(v, n)[..k] == LittleEndian(v, k)
  {
    if k > 0 {
      LittleEndianPrefix(v / 256, n - 1, k - 1);
      assert LittleEndian(v, n)[..k] == [v % 256] + LittleEndian(v / 256, n - 1)[..k - 1];
    }
  }

  lemma {:induction false} LittleEndianModulo(v: nat, n: nat)
    ensures FromLittleEndian(LittleEndian(v, n)) == v % Pow256(n)
  {
    if n > 0 {
      LittleEndianModulo(v / 256, n - 1);
      assert LittleEndian(v, n)[1..] == LittleEndian(v / 256, n - 1);
      ModuloSplit(v, Pow256(n - 1));
    }
  }

  lemma {:induction false} ModuloSplit(v: nat, p: nat)
    requires p > 0
    ensures v % (256 * p) == v % 256 + 256 * ((v / 256) % p)
  {
    var q, r := v / 256, v % 256;
    var a, c := q / p, q % p;
    assert v == 256 * (a * p + c) + r;
    assert 256 * (a * p) == (256 * p) * a;
    assert v == (256 * p) * a + (256 * c + r);
    assert 0 <= 256 * c + r < 256 * p;
    DivisionUnique(v, 256 * p, a, 256 * c + r);
  }

  lemma {:induction false} ProductAtLeast(d: int, k: int)
    requires d > 0 && k >= 1
    ensures d * k >= d
  {
    assert d * k == d * (k - 1) + d;
    assert d * (k - 1) >= 0;
  }

  lemma {:induction false} DivisionUnique(v: int, d: int, q: int, r: int)
    requires d > 0 && v == d * q + r && 0 <= r < d
    ensures v % d == r && v / d == q
  {
    var q', r' := v / d, v % d;
    assert v == d * q' + r';
    assert d * (q - q') == d * q - d * q';
    assert d * (q' - q) == d * q' - d * q;
    if q > q' {
      ProductAtLeast(d, q - q');
    } else if q < q' {
      ProductAtLeast(d, q' - q);
    }
  }

  /** The unsigned `n`-byte image of a signed value (two's complement). */
  function TwosComplement(v: int, n: nat): (u: nat)
    ensures u < Pow256(n)
  {
    v % Pow256(n)
  }

  /** The signed reading of an unsigned `n`-byte value. */
  function SignedReading(u: nat, n: nat): int
  {
    if 2 * u >= Pow256(n) then u - Pow256(n) else u
  }

  predicate FitsSigned(v: int, n: nat) {
    var p: int := Pow256(n); -p <= 2 * v < p
  }

  lemma {:induction false} SignedRoundTrip(v: int, n: nat)
    requires n > 0
    ensures SignedReading(TwosComplement(v, n), n) == v <==> FitsSigned(v, n)
  {
    assert Pow256(n) % 2 == 0 by { assert Pow256(n) == 2 * (128 * Pow256(n - 1)); }
    var p := Pow256(n);
    if FitsSigned(v, n) {
      if v < 0 {
        DivisionUnique(v, p, -1, v + p);
      } else {
        DivisionUnique(v, p, 0, v);
      }
    }
  }

  /** Concatenation of a list of byte strings. */
  function Concat(bs: seq<seq<byte>>): seq<byte>
  {
    if bs == [] then [] else bs[0] + Concat(bs[1..])
  }

  lemma {:induction false} ConcatAppend(xs: seq<seq<byte>>, ys: seq<seq<byte>>)
    ensures Concat(xs + ys) == Concat(xs) + Concat(ys)
  {
    if xs == [] {
      assert xs + ys == ys;
    } else {
      ConcatAppend(xs[1..], ys);
      ConcatHead(xs[0], xs[1..], ys);
      assert xs == [xs[0]] + xs[1..];
      Associate(xs[0], Concat(xs[1..]), Concat(ys));
    }
  }

  lemma {:induction false} ConcatHead(x: seq<byte>, xs: seq<seq<byte>>, ys: seq<seq<byte>>)
    ensures Concat(([x] + xs) + ys) == x + Concat(xs + ys)
    ensures Concat([x] + xs) == x + Concat(xs)
  {
    assert (([x] + xs) + ys)[1..] == xs + ys;
    assert ([x] + xs)[1..] == xs;
  }

  lemma {:induction false} Associate<T>(x: seq<T>, y: seq<T>, z: seq<T>)
    ensures (x + y) + z == x + (y + z)
  {
  }
}
