/** Pairings in the flat key-value store that also holds the server's other data. */
module PairingStore {
  import opened Bytes
  import opened Options

  type Name = seq<byte>

  datatype Pairing = Pairing(name: Name, publicKey: seq<byte>, permission: byte)

  const ADMIN: byte := 1

  type Entries = map<string, seq<byte>>

  // ---- Keys ----

  const DIGITS := "0123456789abcdef"
  const SUFFIX := ".pairing"
  const RESERVED := {"keypair", "uuid", "version", "configHash", "schema"}

  function Hex(b: seq<byte>): (h: string)
    ensures |h| == 2 * |b|
  {
    if b == [] then "" else [DIGITS[b[0] / 16], DIGITS[b[0] % 16]] + Hex(b[1..])
  }

  function Key(name: Name): string {
    Hex(name) + SUFFIX
  }

  predicate IsPairingKey(k: string) {
    |k| >= |SUFFIX| && k[|k| - |SUFFIX|..] == SUFFIX
  }

  lemma {:induction false} DigitsDiffer(i: nat, j: nat)
    requires i < 16 && j < 16 && DIGITS[i] == DIGITS[j]
    ensures i == j
  {
  }

  lemma {:induction false} HexInjective(a: seq<byte>, b: seq<byte>)
    requires Hex(a) == Hex(b)
    ensures a == b
  {
    assert |a| == |b|;
    if a != [] {
      assert Hex(a)[0] == Hex(b)[0] && Hex(a)[1] == Hex(b)[1];
      DigitsDiffer(a[0] / 16, b[0] / 16);
      DigitsDiffer(a[0] % 16, b[0] % 16);
      assert Hex(a)[2..] == Hex(a[1..]) && Hex(b)[2..] == Hex(b[1..]);
      HexInjective(a[1..], b[1..]);
      assert a == [a[0]] + a[1..] && b == [b[0]] + b[1..];
    }
  }

  lemma {:induction false} HexIsDigits(a: seq<byte>)
    ensures forall i :: 0 <= i < |Hex(a)| ==> Hex(a)[i] in DIGITS
  {
    if a != [] {
      HexIsDigits(a[1..]);
    }
  }

  /** A key spells the bytes of the name in lower-case hexadecimal. */
  lemma {:induction false} KeySpells(n: Name)
    ensures |Key(n)| == 2 * |n| + 8 && Key(n)[2 * |n|..] == ".pairing"
    ensures forall i :: 0 <= i < |n| ==>
      Key(n)[2 * i] == "0123456789abcdef"[n[i] / 16] && Key(n)[2 * i + 1] == "0123456789abcdef"[n[i] % 16]
  {
    forall i | 0 <= i < |n|
      ensures Hex(n)[2 * i] == DIGITS[n[i] / 16] && Hex(n)[2 * i + 1] == DIGITS[n[i] % 16]
    {
      HexDigits(n, i);
    }
    hide Hex;
  }

  lemma {:induction false} HexDigits(b: seq<byte>, i: nat)
    requires i < |b|
    ensures Hex(b)[2 * i] == DIGITS[b[i] / 16] && Hex(b)[2 * i + 1] == DIGITS[b[i] % 16]
    decreases i
  {
    if i > 0 {
      HexDigits(b[1..], i - 1);
      assert Hex(b)[2..] == Hex(b[1..]);
      assert Hex(b)[2 * i] == Hex(b)[2..][2 * (i - 1)];
    }
  }

  /** Distinct names have distinct keys; no pairing key is the key of something
      else in the store; and none is changed by dropping colons, which is what the
      file store does to a key. */
  lemma {:induction false} KeysApart(m: Name, n: Name)
    ensures Key(m) == Key(n) <==> m == n
    ensures IsPairingKey(Key(n)) && ':' !in Key(n) && Key(n) !in RESERVED
  {
    hide IsPairingKey;
    PlainKey(n);
    assert Key(m)[..|Key(m)| - |SUFFIX|] == Hex(m) && Key(n)[..|Key(n)| - |SUFFIX|] == Hex(n);
    if Key(m) == Key(n) {
      HexInjective(m, n);
    }
  }

  lemma {:induction false} PlainKey(n: Name)
    ensures IsPairingKey(Key(n)) && ':' !in Key(n) && Key(n) !in RESERVED
  {
    hide Hex;
    assert Key(n)[|Key(n)| - |SUFFIX|..] == SUFFIX;
    HexIsDigits(n);
  }

  // ---- Records ----

  /** The JSON form of a pairing. `utf8` is what encoding does to a name: bytes that
      are not valid UTF-8 are replaced. */
  datatype Json = Json(
    marshal: Pairing -> seq<byte>, unmarshal: seq<byte> -> Option<Pairing>, utf8: Name -> Name)

  ghost predicate Correct(j: Json) {
    && (forall p :: j.unmarshal(j.marshal(p)) == Some(p.(name := j.utf8(p.name))))
    && (forall n :: j.utf8(j.utf8(n)) == j.utf8(n))
  }

  function Quote(b: seq<byte>): seq<byte> {
    if b == [] then [0] else [1, b[0]] + Quote(b[1..])
  }

  function Unquote(q: seq<byte>): (seq<byte>, seq<byte>) {
    if |q| < 2 || q[0] == 0 then ([], if q == [] then [] else q[1..])
    else
      var (b, rest) := Unquote(q[2..]);
      ([q[1]] + b, rest)
  }

  lemma {:induction false} UnquoteQuoted(b: seq<byte>, rest: seq<byte>)
    ensures Unquote(Quote(b) + rest) == (b, rest)
  {
    if b == [] {
      assert ([0] + rest)[1..] == rest;
    } else {
      var q := Quote(b) + rest;
      assert q[0] == 1 && q[1] == b[0] && q[2..] == Quote(b[1..]) + rest;
      UnquoteQuoted(b[1..], rest);
      assert [b[0]] + b[1..] == b;
    }
  }

  function Plain(p: Pairing): seq<byte> {
    [p.permission] + (Quote(p.name) + p.publicKey)
  }

  function FromPlain(b: seq<byte>): Option<Pairing> {
    if b == [] then None
    else
      var (name, key) := Unquote(b[1..]);
      Some(Pairing(name, key, b[0]))
  }

  /** Some encoding is correct, so the theorems below speak about something. */
  lemma {:induction false} SomeJsonIsCorrect()
    ensures exists j :: Correct(j)
  {
    var j := Json(Plain, FromPlain, (n: Name) => n);
    forall p: Pairing
      ensures FromPlain(Plain(p)) == Some(p)
    {
      UnquoteQuoted(p.name, p.publicKey);
      assert Plain(p)[1..] == Quote(p.name) + p.publicKey;
    }
    hide Plain, FromPlain;
    assert Correct(j);
  }

  /** The entries hold exactly the pairings of `m`, each under the key of its name. */
  ghost predicate Holds(j: Json, st: Entries, m: map<Name, Pairing>) {
    && (forall n :: n in m ==> Key(n) in st && j.unmarshal(st[Key(n)]) == Some(m[n]))
    && (forall k :: k in st && IsPairingKey(k) ==> exists n :: n in m && k == Key(n))
  }

  function PairingForKey(j: Json, st: Entries, k: string): Option<Pairing> {
    if k in st then j.unmarshal(st[k]) else None
  }

  function PairingKeys(st: Entries): set<string> {
    set k | k in st && IsPairingKey(k)
  }

  function Listed(j: Json, st: Entries): set<Pairing> {
    set k | k in PairingKeys(st) && PairingForKey(j, st, k).Some? :: PairingForKey(j, st, k).value
  }

  // ---- The map they refine ----

  function Saved(utf8: Name -> Name, m: map<Name, Pairing>, p: Pairing): map<Name, Pairing> {
    m[p.name := p.(name := utf8(p.name))]
  }

  function AllDeleted(m: map<Name, Pairing>): map<Name, Pairing> {
    m - set n | n in m :: m[n].name
  }

  lemma {:induction false} SaveRefines(j: Json, st: Entries, m: map<Name, Pairing>, p: Pairing)
    requires Correct(j) && Holds(j, st, m)
    ensures var st' := st[Key(p.name) := j.marshal(p)];
            && Holds(j, st', Saved(j.utf8, m, p))
            && (forall k :: k in st && k != Key(p.name) ==> k in st' && st'[k] == st[k])
  {
    hide Key, IsPairingKey;
    KeysApart(p.name, p.name);
    var st', m' := st[Key(p.name) := j.marshal(p)], Saved(j.utf8, m, p);
    forall n | n in m'
      ensures Key(n) in st' && j.unmarshal(st'[Key(n)]) == Some(m'[n])
    {
      KeysApart(n, p.name);
    }
    forall k | k in st' && IsPairingKey(k)
      ensures exists n :: n in m' && k == Key(n)
    {
      if k == Key(p.name) {
        assert p.name in m';
      } else {
        var n :| n in m && k == Key(n);
        assert n in m';
      }
    }
  }

  lemma {:induction false} DeleteRefines(j: Json, st: Entries, m: map<Name, Pairing>, name: Name)
    requires Holds(j, st, m)
    ensures Holds(j, st - {Key(name)}, m - {name})
  {
    hide Key, IsPairingKey;
    forall n | n in m - {name}
      ensures Key(n) in st - {Key(name)}
    {
      KeysApart(n, name);
    }
    forall k | k in st - {Key(name)} && IsPairingKey(k)
      ensures exists n :: n in m - {name} && k == Key(n)
    {
      var n :| n in m && k == Key(n);
      assert n in m - {name};
    }
  }

  lemma {:induction false} LookupRefines(j: Json, st: Entries, m: map<Name, Pairing>, name: Name)
    requires Holds(j, st, m)
    ensures PairingForKey(j, st, Key(name)) == if name in m then Some(m[name]) else None
    ensures Key(name) in st <==> name in m
  {
    hide Key, IsPairingKey;
    KeysApart(name, name);
    if Key(name) in st {
      var n :| n in m && Key(name) == Key(n);
      KeysApart(name, n);
    }
  }

  lemma {:induction false} ListRefines(j: Json, st: Entries, m: map<Name, Pairing>)
    requires Holds(j, st, m)
    ensures Listed(j, st) == m.Values
  {
    hide Key, IsPairingKey;
    forall p | p in m.Values
      ensures p in Listed(j, st)
    {
      var n :| n in m && m[n] == p;
      KeysApart(n, n);
      assert Key(n) in PairingKeys(st) && PairingForKey(j, st, Key(n)) == Some(p);
    }
    forall p | p in Listed(j, st)
      ensures p in m.Values
    {
      var k :| k in PairingKeys(st) && PairingForKey(j, st, k) == Some(p);
      var n :| n in m && k == Key(n);
      assert m[n] == p;
    }
  }

  predicate HasAdmin(m: map<Name, Pairing>) {
    exists n :: n in m && m[n].permission == ADMIN
  }

  // ---- Deleting all ----

  /** Every record is the JSON form of a pairing saved under its name. */
  predicate Records(utf8: Name -> Name, m: map<Name, Pairing>) {
    forall n :: n in m ==> m[n].name == utf8(n)
  }

  lemma {:induction false} RecordsKept(utf8: Name -> Name, m: map<Name, Pairing>, p: Pairing, names: set<Name>)
    requires Records(utf8, m)
    ensures Records(utf8, Saved(utf8, m, p)) && Records(utf8, m - names)
  {
  }

  /** Deleting all pairings by the names inside their records leaves exactly those
      whose name is not valid UTF-8. */
  lemma {:induction false} DeleteAllLeaves(utf8: Name -> Name, m: map<Name, Pairing>)
    requires Records(utf8, m) && (forall n :: utf8(utf8(n)) == utf8(n))
    ensures forall n :: n in AllDeleted(m) <==> n in m && utf8(n) != n
    ensures AllDeleted(m) == map[] <==> forall n :: n in m ==> utf8(n) == n
  {
    forall n
      ensures n in AllDeleted(m) <==> n in m && utf8(n) != n
    {
      if n in m && utf8(n) == n {
        assert m[n].name == n;
      }
      if n in m && n !in AllDeleted(m) {
        var o :| o in m && m[o].name == n;
        assert utf8(utf8(o)) == utf8(o);
      }
    }
    if AllDeleted(m) != map[] {
      var n :| n in AllDeleted(m);
    }
  }

  // ---- The store object ----

  class Storer {
    const json: Json
    /** The file store fails to delete what is not there, the memory store does not. */
    const strict: bool
    var entries: Entries
    /** The map from names to pairings that the entries stand for. */
    ghost var pairings: map<Name, Pairing>

    ghost predicate Valid()
      reads this
    {
      Correct(json) && Holds(json, entries, pairings) && Records(json.utf8, pairings)
    }

    /** What else is stored is the same in `e`. */
    predicate OthersKept(e: Entries)
      reads this
    {
      && (forall k :: k in entries && !IsPairingKey(k) ==> k in e && e[k] == entries[k])
      && (forall k :: k in e && !IsPairingKey(k) ==> k in entries)
    }

    constructor (json: Json, strict: bool)
      requires Correct(json)
      ensures Valid() && this.json == json && this.strict == strict && pairings == map[]
    {
      this.json, this.strict := json, strict;
      entries, pairings := map[], map[];
    }

    /** The keys with the pairing suffix, in some order. */
    method KeysWithSuffix() returns (keys: seq<string>)
      ensures forall k :: k in keys <==> k in PairingKeys(entries)
    {
      keys := [];
      var rest := entries.Keys;
      while rest != {}
        invariant rest <= entries.Keys
        invariant forall k :: k in keys <==> k in entries && k !in rest && IsPairingKey(k)
        decreases |rest|
      {
        var k :| k in rest;
        rest := rest - {k};
        if IsPairingKey(k) {
          keys := keys + [k];
        }
      }
    }

    method SavePairing(p: Pairing)
      requires Valid()
      modifies this
      ensures Valid() && pairings == Saved(json.utf8, old(pairings), p) && OthersKept(old(entries))
    {
      hide Key, IsPairingKey, Holds, Records, Correct;
      SaveRefines(json, entries, pairings, p);
      RecordsKept(json.utf8, pairings, p, {});
      KeysApart(p.name, p.name);
      entries := entries[Key(p.name) := json.marshal(p)];
      pairings := Saved(json.utf8, pairings, p);
    }

    method DeletePairing(name: Name) returns (ok: bool)
      requires Valid()
      modifies this
      ensures Valid() && pairings == old(pairings) - {name} && OthersKept(old(entries))
      ensures ok <==> name in old(pairings) || !strict
    {
      hide Key, IsPairingKey, Holds, Records;
      DeleteRefines(json, entries, pairings, name);
      RecordsKept(json.utf8, pairings, Pairing(name, [], 0), {name});
      LookupRefines(json, entries, pairings, name);
      ok := Key(name) in entries || !strict;
      KeysApart(name, name);
      entries := entries - {Key(name)};
      pairings := pairings - {name};
    }

    method PairingNamed(name: Name) returns (p: Option<Pairing>)
      requires Valid()
      ensures p == if name in pairings then Some(pairings[name]) else None
    {
      hide Key, IsPairingKey, Holds, Records, Correct;
      LookupRefines(json, entries, pairings, name);
      p := PairingForKey(json, entries, Key(name));
    }

    method Pairings() returns (ps: seq<Pairing>)
      requires Valid()
      ensures forall p :: p in ps <==> p in pairings.Values
    {
      hide Key, IsPairingKey, Holds, Records, Correct;
      ps := [];
      var keys := KeysWithSuffix();
      ListRefines(json, entries, pairings);
      for i := 0 to |keys|
        invariant forall p :: p in ps <==>
          exists h :: 0 <= h < i && PairingForKey(json, entries, keys[h]) == Some(p)
      {
        var p := PairingForKey(json, entries, keys[i]);
        if p.Some? {
          ps := ps + [p.value];
        }
      }
      forall p
        ensures p in ps <==> p in Listed(json, entries)
      {
        if p in Listed(json, entries) {
          var k :| k in PairingKeys(entries) && PairingForKey(json, entries, k) == Some(p);
          var h :| 0 <= h < |keys| && keys[h] == k;
        }
        if p in ps {
          var h :| 0 <= h < |keys| && PairingForKey(json, entries, keys[h]) == Some(p);
          assert keys[h] in PairingKeys(entries);
        }
      }
    }

    method IsPaired() returns (paired: bool)
      requires Valid()
      ensures paired <==> pairings != map[]
    {
      hide Holds, Records, Correct;
      var ps := Pairings();
      if pairings != map[] {
        ghost var n :| n in pairings;
        assert pairings[n] in pairings.Values;
      }
      if |ps| > 0 {
        assert ps[0] in pairings.Values;
      }
      return |ps| > 0;
    }

    method DeleteAllPairings()
      requires Valid()
      modifies this
      ensures Valid() && pairings == AllDeleted(old(pairings)) && OthersKept(old(entries))
    {
      hide Holds, Correct, Records;
      ghost var m := pairings;
      var ps := Pairings();
      ghost var names: set<Name> := {};
      assert m - names == m;
      for i := 0 to |ps|
        invariant names == set h | 0 <= h < i :: ps[h].name
        invariant Valid() && pairings == m - names && OthersKept(old(entries))
      {
        assert (m - names) - {ps[i].name} == m - (names + {ps[i].name});
        var ok := DeletePairing(ps[i].name);
        names := names + {ps[i].name};
      }
      assert names == set n | n in m :: m[n].name by {
        forall x | x in names
          ensures x in set n | n in m :: m[n].name
        {
          var h :| 0 <= h < |ps| && ps[h].name == x;
          assert ps[h] in m.Values;
        }
        forall n | n in m
          ensures m[n].name in names
        {
          assert m[n] in m.Values;
          var h :| 0 <= h < |ps| && ps[h] == m[n];
        }
      }
    }

    method PairedWithAdmin() returns (paired: bool)
      requires Valid()
      ensures paired <==> HasAdmin(pairings)
    {
      hide Holds, Records, Correct;
      var ps := Pairings();
      for i := 0 to |ps|
        invariant forall h :: 0 <= h < i ==> ps[h].permission != ADMIN
      {
        if ps[i].permission == ADMIN {
          assert ps[i] in pairings.Values;
          return true;
        }
      }
      forall n | n in pairings
        ensures pairings[n].permission != ADMIN
      {
        assert pairings[n] in pairings.Values;
      }
      return false;
    }
  }
}
