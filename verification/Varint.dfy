/** Variable-length integers (section 2 of RFC 3284): base 128, most significant digit
    first, every byte but the last with its top bit set. */
module Varint {
  import opened Bytes

  /** The digits of `n` with the continuation bit set on each; nothing for zero. */
  function Leading(n: nat): seq<byte> {
    if n == 0 then [] else Leading(n / 128) + [n % 128 + 128]
  }

  /** The bytes that stand for `n`. */
  function Encode(n: nat): seq<byte> {
    Leading(n / 128) + [n % 128]
  }

  /** Reads digits onto `val`, refusing to shift a value that would lose its top seven bits. */
  function ReadOnto(val: nat, s: seq<byte>): Result<(uint32, seq<byte>)>
    decreases |s|
  {
    if s == [] || val >= 0x200_0000 then Invalid
    else
      var v := val * 128 + s[0] % 128;
      if s[0] < 128 then Ok((v, s[1..])) else ReadOnto(v, s[1..])
  }

  /** Reads one integer off the front of `s`, giving its value and the bytes after it. */
  function Read(s: seq<byte>): Result<(uint32, seq<byte>)> {
    ReadOnto(0, s)
  }

  /** Whatever is read leaves a proper suffix. */
  lemma {:induction false} ReadSuffix(val: nat, s: seq<byte>)
    ensures var r := ReadOnto(val, s);
      r.Ok? ==> |r.value.1| < |s| && r.value.1 == s[|s| - |r.value.1|..]
    decreases |s|
  {
    if s != [] && val < 0x200_0000 && s[0] >= 128 {
      ReadSuffix(val * 128 + s[0] % 128, s[1..]);
    }
  }

  /** More bytes after the integer change nothing but what is left over. */
  lemma {:induction false} ReadFrame(val: nat, s: seq<byte>, more: seq<byte>)
    requires ReadOnto(val, s).Ok?
    ensures ReadOnto(val, s + more)
         == Ok((ReadOnto(val, s).value.0, ReadOnto(val, s).value.1 + more))
    decreases |s|
  {
    assert (s + more)[1..] == s[1..] + more;
    if s[0] >= 128 {
      ReadFrame(val * 128 + s[0] % 128, s[1..], more);
    }
  }

  lemma {:induction false} ReadLeading(n: nat, rest: seq<byte>)
    requires n < 0x200_0000
    ensures ReadOnto(0, Leading(n) + rest) == ReadOnto(n, rest)
  {
    if n == 0 {
      assert Leading(n) + rest == rest;
    } else {
      var last: byte := n % 128 + 128;
      assert Leading(n) + rest == Leading(n / 128) + ([last] + rest);
      ReadLeading(n / 128, [last] + rest);
      assert ([last] + rest)[1..] == rest;
    }
  }

  /** Every 32-bit value reads back, whatever follows it. */
  lemma RoundTrip(n: nat, rest: seq<byte>)
    requires n < TWO32
    ensures Read(Encode(n) + rest) == Ok((n, rest))
  {
    var last: byte := n % 128;
    assert Encode(n) + rest == Leading(n / 128) + ([last] + rest);
    ReadLeading(n / 128, [last] + rest);
    assert ([last] + rest)[1..] == rest;
  }

  /** A smaller value never takes more bytes. */
  lemma {:induction false} LeadingMonotone(m: nat, n: nat)
    requires m <= n
    ensures |Leading(m)| <= |Leading(n)|
  {
    if m != 0 {
      LeadingMonotone(m / 128, n / 128);
    }
  }

  lemma {:induction false} ReadOntoLength(val: nat, s: seq<byte>)
    requires ReadOnto(val, s).Ok?
    ensures var (v, rest) := ReadOnto(val, s).value;
      |Leading(v / 128)| + 1 <= |Leading(val)| + |s| - |rest|
    decreases |s|
  {
    var v := val * 128 + s[0] % 128;
    assert v / 128 == val;
    if s[0] >= 128 {
      ReadOntoLength(v, s[1..]);
    }
  }

  /** No other bytes that read as the same value are shorter. */
  lemma EncodeShortest(s: seq<byte>)
    requires Read(s).Ok? && Read(s).value.1 == []
    ensures |Encode(Read(s).value.0)| <= |s|
  {
    ReadOntoLength(0, s);
  }

  lemma {:induction false} LeadingLength(n: nat, digits: nat, limit: nat)
    requires limit == Power128(digits) && n < limit
    ensures |Leading(n)| <= digits
  {
    if n != 0 {
      assert digits > 0;
      LeadingLength(n / 128, digits - 1, Power128(digits - 1));
    }
  }

  function Power128(k: nat): nat {
    if k == 0 then 1 else 128 * Power128(k - 1)
  }

  /** The number that seven-bit digits stand for, by their places. */
  ghost function Value(s: seq<byte>): nat {
    if s == [] then 0 else s[0] % 128 * Power128(|s| - 1) + Value(s[1..])
  }

  /** The bytes of one number: the top bit says that another follows. */
  predicate OneNumber(s: seq<byte>) {
    s != [] && s[|s| - 1] < 128 && forall i :: 0 <= i < |s| - 1 ==> s[i] >= 128
  }

  lemma {:induction false} ReadOntoValue(val: nat, s: seq<byte>)
    requires OneNumber(s) && val * Power128(|s| - 1) + Value(s[..|s| - 1]) < 0x200_0000
    ensures ReadOnto(val, s) == Ok((val * Power128(|s|) + Value(s), []))
    decreases |s|
  {
    var v, d := val * 128 + s[0] % 128, s[0] % 128;
    if |s| == 1 {
      assert s[1..] == [] && s[..0] == [];
      assert Power128(1) == 128 * Power128(0) == 128;
    } else {
      var rest, p := s[1..], Power128(|s| - 2);
      assert s[..|s| - 1][1..] == rest[..|rest| - 1] && s[..|s| - 1][0] == s[0];
      assert Value(s[..|s| - 1]) == d * p + Value(rest[..|rest| - 1]);
      Carry(val, d, p);
      AtLeastOne(|s| - 1, val);
      ReadOntoValue(v, rest);
      Carry(val, d, Power128(|s| - 1));
    }
  }

  lemma Carry(val: nat, d: nat, p: nat)
    ensures (val * 128 + d) * p == val * (128 * p) + d * p
  {
  }

  lemma {:induction false} AtLeastOne(k: nat, val: nat)
    ensures val <= val * Power128(k)
  {
    if k > 0 {
      AtLeastOne(k - 1, val);
      Carry(val, 0, Power128(k - 1));
    }
  }

  /** Reading gives the sum of the digits, each times the power of 128 of its place; only a number that
      does not fit 32 bits is refused. */
  lemma ReadValue(s: seq<byte>)
    requires OneNumber(s) && Value(s[..|s| - 1]) < 0x200_0000
    ensures Read(s) == Ok((Value(s), []))
  {
    ReadOntoValue(0, s);
  }

  /** Fills a ten-byte buffer from its end, then clears the top bit of the last byte. */
  method Emit(num: uint32) returns (bytes: seq<byte>)
    ensures bytes == Encode(num) && 1 <= |bytes| <= 5
  {
    var buf := new byte[10];
    var bufi, n := 9, num / 128;
    buf[9] := num % 128 + 128;
    LeadingLength(num / 128, 4, 0x1000_0000) by { assert Power128(4) == 0x1000_0000; }
    while n != 0
      invariant 1 <= bufi <= 9 && n >= 0
      invariant 10 - bufi + |Leading(n)| == 1 + |Leading(num / 128)|
      invariant buf[9] == num % 128 + 128
      invariant Leading(n) + buf[bufi..9] == Leading(num / 128)
    {
      ghost var before := buf[bufi..9];
      ghost var digit: byte := n % 128 + 128;
      assert Leading(n) == Leading(n / 128) + [digit];
      bufi := bufi - 1;
      buf[bufi] := n % 128 + 128;
      assert buf[bufi..9] == [digit] + before;
      assert Leading(n / 128) + buf[bufi..9] == Leading(n) + before;
      n := n / 128;
    }
    buf[9] := buf[9] - 128;
    bytes := buf[bufi..];
    assert buf[bufi..] == buf[bufi..9] + [buf[9]];
  }

  /** Reads one integer byte by byte. */
  method Scan(s: seq<byte>) returns (r: Result<(uint32, seq<byte>)>)
    ensures r == Read(s)
  {
    var val: nat, inp: nat := 0, 0;
    while true
      invariant inp <= |s|
      invariant ReadOnto(val, s[inp..]) == Read(s)
      decreases |s| - inp
    {
      if inp == |s| || val >= 0x200_0000 {
        return Invalid;
      }
      var next := s[inp];
      inp := inp + 1;
      val := val * 128 + next % 128;
      assert s[inp - 1..][1..] == s[inp..];
      if next < 128 {
        return Ok((val, s[inp..]));
      }
    }
  }
}
