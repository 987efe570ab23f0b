/** The Adler-32 checksum, with the modulo put off to the end of each block. */
module Adler32 {
  import opened Bytes

  const BASE := 65521
  const NMAX := 5552

  /** The two sums, as section 8.2 of RFC 1950 defines them byte by byte. */
  datatype Sums = Sums(s1: nat, s2: nat)

  function Next(s: Sums, b: byte): Sums {
    var s1 := (s.s1 + b) % BASE;
    Sums(s1, (s.s2 + s1) % BASE)
  }

  function Definition(s: Sums, data: seq<byte>): Sums {
    if data == [] then s else Next(Definition(s, data[..|data| - 1]), data[|data| - 1])
  }

  // The sums in closed form

  ghost function Total(data: seq<byte>): nat {
    if data == [] then 0 else data[0] + Total(data[1..])
  }

  /** Each byte as often as there are bytes from it to the end. */
  ghost function Weighted(data: seq<byte>): nat {
    if data == [] then 0 else |data| * data[0] + Weighted(data[1..])
  }

  lemma {:induction false} Appended(data: seq<byte>, b: byte)
    ensures Total(data + [b]) == Total(data) + b && Weighted(data + [b]) == Weighted(data) + Total(data) + b
  {
    if data == [] {
      assert (data + [b])[1..] == [];
    } else {
      assert (data + [b])[1..] == data[1..] + [b];
      Appended(data[1..], b);
      assert (|data| + 1) * data[0] == |data| * data[0] + data[0];
    }
  }

  ghost function Times(n: nat, x: nat): nat {
    n * x
  }

  lemma TimesNext(n: nat, x: nat)
    ensures Times(n + 1, x) == Times(n, x) + x && Times(0, x) == 0
  {
  }

  lemma SameSelf(s: Sums)
    ensures Same(s.s1, s.s2, s)
  {
  }

  lemma {:induction false} ClosedSame(s: Sums, data: seq<byte>)
    ensures Same(s.s1 + Total(data), s.s2 + Times(|data|, s.s1) + Weighted(data), Definition(s, data))
  {
    hide Same, Next, Times;
    if data == [] {
      SameSelf(s);
      TimesNext(0, s.s1);
    } else {
      var n := |data| - 1;
      var before, b := data[..n], data[n];
      ClosedSame(s, before);
      Appended(before, b);
      assert data == before + [b];
      SameNext(s.s1 + Total(before), s.s2 + Times(n, s.s1) + Weighted(before), Definition(s, before), b);
      TimesNext(n, s.s1);
    }
  }

  /** The checksum is the sum of the bytes, and the sum of the bytes weighted by their places from the
      end, modulo the prime 65521. */
  lemma Closed(s: Sums, data: seq<byte>)
    requires data != []
    ensures Definition(s, data) == Sums((s.s1 + Total(data)) % 65521, (s.s2 + |data| * s.s1 + Weighted(data)) % 65521)
  {
    hide Total, Weighted, Definition;
    ClosedSame(s, data);
    assert data[..|data|] == data;
    Reduced(s, data, |data|, s.s1 + Total(data), s.s2 + Times(|data|, s.s1) + Weighted(data));
  }

  ghost function Triangle(n: nat): nat {
    if n == 0 then 0 else Triangle(n - 1) + n
  }

  lemma {:induction false} TriangleIs(n: nat)
    ensures 2 * Triangle(n) == n * (n + 1)
  {
    if n > 0 {
      TriangleIs(n - 1);
    }
  }

  lemma {:induction false} TriangleGrows(m: nat, n: nat)
    requires m <= n
    ensures Triangle(m) <= Triangle(n)
    decreases n - m
  {
    if m < n {
      TriangleGrows(m, n - 1);
    }
  }

  /** The sums after `m` bytes of a block, not reduced, still fit. */
  ghost predicate Small(s1: int, s2: int, m: nat) {
    s1 <= 65535 + 255 * m && s2 <= 65535 * (m + 1) + 255 * Triangle(m)
  }

  lemma Fits(s1: int, s2: int, m: nat, b: byte)
    requires Small(s1, s2, m) && m < NMAX && s1 >= 0 && s2 >= 0
    ensures Small(s1 + b, s2 + (s1 + b), m + 1)
    ensures s1 + b < 0x1_0000_0000 && s2 + (s1 + b) < 0x1_0000_0000
  {
    TriangleIs(NMAX);
    TriangleGrows(m + 1, NMAX);
  }

  /** The sums agree with the definition up to the modulo. */
  ghost predicate Same(s1: int, s2: int, s: Sums) {
    s1 % BASE == s.s1 % BASE && s2 % BASE == s.s2 % BASE
  }

  lemma SameNext(s1: int, s2: int, s: Sums, b: byte)
    requires Same(s1, s2, s)
    ensures Same(s1 + b, s2 + (s1 + b), Next(s, b))
  {
    AddMod(s1, s.s1, b);
    var t1 := Next(s, b).s1;
    AddMod(s2, s.s2, s1 + b);
    AddMod(s1 + b, t1, s.s2);
  }

  lemma AddMod(x: int, y: int, z: int)
    requires x % BASE == y % BASE
    ensures (x + z) % BASE == (y + z) % BASE
  {
    var k := x / BASE - y / BASE;
    assert x + z == y + z + k * BASE;
  }

  lemma DefinitionNext(s: Sums, data: seq<byte>, i: nat)
    requires i < |data|
    ensures Definition(s, data[..i + 1]) == Next(Definition(s, data[..i]), data[i])
  {
    assert data[..i + 1][..i] == data[..i];
  }

  lemma {:induction false} DefinitionReduced(s: Sums, data: seq<byte>)
    requires data != []
    ensures Definition(s, data).s1 < BASE && Definition(s, data).s2 < BASE
  {
  }

  /** One byte more. */
  method AddByte(s1: uint32, s2: uint32, b: byte, ghost m: nat, ghost s: Sums) returns (t1: uint32, t2: uint32)
    requires Small(s1, s2, m) && m < NMAX && Same(s1, s2, s)
    ensures Small(t1, t2, m + 1) && Same(t1, t2, Next(s, b))
  {
    Fits(s1, s2, m, b);
    SameNext(s1, s2, s, b);
    t1 := s1 + b;
    t2 := s2 + t1;
  }

  /** The checksum of the data, continuing from `adler`: the sums never leave 32 bits, and the result
      is what the definition gives. */
  method Checksum(adler: nat, data: seq<byte>) returns (r: nat)
    requires adler < 0x1_0000_0000
    ensures var s := Definition(Sums(adler % 0x1_0000, adler / 0x1_0000), data); r == s.s2 * 0x1_0000 + s.s1
    ensures data != [] ==>
      && r % 0x1_0000 == (adler % 0x1_0000 + Total(data)) % 65521
      && r / 0x1_0000 == (adler / 0x1_0000 + |data| * (adler % 0x1_0000) + Weighted(data)) % 65521
  {
    hide Definition, Small, Same, Total, Weighted;
    ghost var start := Sums(adler % 0x1_0000, adler / 0x1_0000);
    var s1, s2: uint32 := (adler % 0x1_0000), (adler / 0x1_0000);
    var i := 0;
    Begin(start, data);
    while i < |data|
      invariant 0 <= i <= |data| && s1 < 0x1_0000 && s2 < 0x1_0000
      invariant s1 == Definition(start, data[..i]).s1 && s2 == Definition(start, data[..i]).s2
    {
      var k := if |data| - i < NMAX then |data| - i else NMAX;
      s1, s2 := Block(s1, s2, data, i, k, start);
      i := i + k;
      Reduced(start, data, i, s1, s2);
      s1, s2 := s1 % BASE, s2 % BASE;
    }
    assert data[..|data|] == data;
    r := s2 * 0x1_0000 + s1;
    if data != [] {
      Closed(start, data);
      TwoHalves(r, s1, s2);
    }
  }

  /** The sums over one block, sixteen bytes at a time and then the rest. */
  method Block(a1: uint32, a2: uint32, data: seq<byte>, i: nat, k: nat, ghost start: Sums) returns (s1: uint32, s2: uint32)
    requires i + k <= |data| && k <= NMAX && a1 < 0x1_0000 && a2 < 0x1_0000
    requires a1 == Definition(start, data[..i]).s1 && a2 == Definition(start, data[..i]).s2
    ensures Same(s1, s2, Definition(start, data[..i + k]))
  {
    hide Definition;
    s1, s2 := a1, a2;
    var m: nat := 0;
    while k - m >= 16
      invariant m <= k && Small(s1, s2, m) && Same(s1, s2, Definition(start, data[..i + m]))
    {
      for j := 0 to 16
        invariant Small(s1, s2, m + j) && Same(s1, s2, Definition(start, data[..i + (m + j)]))
      {
        DefinitionNext(start, data, i + (m + j));
        s1, s2 := AddByte(s1, s2, data[i + (m + j)], m + j, Definition(start, data[..i + (m + j)]));
      }
      m := m + 16;
    }
    while m < k
      invariant m <= k && Small(s1, s2, m) && Same(s1, s2, Definition(start, data[..i + m]))
    {
      DefinitionNext(start, data, i + m);
      s1, s2 := AddByte(s1, s2, data[i + m], m, Definition(start, data[..i + m]));
      m := m + 1;
    }
  }

  lemma TwoHalves(r: nat, s1: nat, s2: nat)
    requires r == s2 * 0x1_0000 + s1 && s1 < 0x1_0000
    ensures r % 0x1_0000 == s1 && r / 0x1_0000 == s2
  {
  }

  lemma Begin(start: Sums, data: seq<byte>)
    ensures Definition(start, data[..0]) == start
  {
  }

  lemma Reduced(start: Sums, data: seq<byte>, i: nat, s1: int, s2: int)
    requires 0 < i <= |data| && Same(s1, s2, Definition(start, data[..i]))
    ensures s1 % BASE == Definition(start, data[..i]).s1 && s2 % BASE == Definition(start, data[..i]).s2
  {
    DefinitionReduced(start, data[..i]);
  }
}
