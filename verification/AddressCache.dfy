/** COPY addresses (sections 5.1 and 5.3 of RFC 3284): absolute, relative to the current
    position, relative to one of four recent addresses, or one of 768 remembered ones. */
module AddressCache {
  import opened Bytes
  import CodeTable
  import Varint

  const NEAR := 4
  const SAME := 768
  const FIRST_SAME_MODE := 6

  /** The contents of both caches. */
  datatype Cache = Cache(near: seq<uint32>, next: nat, same: seq<uint32>) {
    predicate Valid() {
      |near| == NEAR && next < NEAR && |same| == SAME
    }

    /** The contents after `addr` has been used. */
    function Used(addr: uint32): (c: Cache)
      requires Valid()
      ensures c.Valid()
    {
      Cache(near[next := addr], (next + 1) % NEAR, same[addr % SAME := addr])
    }
  }

  function Zeroes(n: nat): (z: seq<uint32>)
    ensures |z| == n && forall k :: 0 <= k < n ==> z[k] == 0
  {
    seq(n, _ => 0)
  }

  /** Both caches as a window starts. */
  function Empty(): (c: Cache)
    ensures c.Valid()
  {
    Cache(Zeroes(NEAR), 0, Zeroes(SAME))
  }

  /** The address that the front of `s` denotes under `mode`, and the bytes after it. Sums and
      differences are taken modulo 2^32. */
  function DecodeAddress(c: Cache, here: uint32, mode: nat, s: seq<byte>): Result<(uint32, seq<byte>)>
    requires c.Valid() && mode < CodeTable.COPY_MODES
  {
    if mode < FIRST_SAME_MODE then
      var (v, rest) :- Varint.Read(s);
      var addr := if mode == 0 then v
                  else if mode == 1 then Diff32(here, v)
                  else Sum32(v, c.near[mode - 2]);
      Ok((addr, rest))
    else if s == [] then Invalid
    else Ok((c.same[(mode - FIRST_SAME_MODE) * 256 + s[0]], s[1..]))
  }

  /** More bytes after the address change nothing but what is left over. */
  lemma DecodeAddressFrame(c: Cache, here: uint32, mode: nat, s: seq<byte>, more: seq<byte>)
    requires c.Valid() && mode < CodeTable.COPY_MODES
    requires DecodeAddress(c, here, mode, s).Ok?
    ensures DecodeAddress(c, here, mode, s + more).Ok?
    ensures DecodeAddress(c, here, mode, s + more).value
         == (DecodeAddress(c, here, mode, s).value.0, DecodeAddress(c, here, mode, s).value.1 + more)
  {
    if mode < FIRST_SAME_MODE {
      Varint.ReadFrame(0, s, more);
    } else {
      assert (s + more)[1..] == s[1..] + more;
    }
  }

  /** The integer that denotes `addr` under a mode that sends an integer. */
  function Offset(c: Cache, here: uint32, addr: uint32, mode: nat): uint32
    requires c.Valid() && mode < FIRST_SAME_MODE
  {
    if mode == 0 then addr
    else if mode == 1 then Diff32(here, addr)
    else Diff32(addr, c.near[mode - 2])
  }

  /** That integer decodes to `addr`. */
  lemma OffsetDecodes(c: Cache, here: uint32, addr: uint32, mode: nat)
    requires c.Valid() && mode < FIRST_SAME_MODE
    ensures DecodeAddress(c, here, mode, Varint.Encode(Offset(c, here, addr, mode))) == Ok((addr, []))
  {
    var d := Offset(c, here, addr, mode);
    Varint.RoundTrip(d, []);
    assert Varint.Encode(d) + [] == Varint.Encode(d);
  }

  /** It is the only integer that does. */
  lemma OffsetUnique(c: Cache, here: uint32, addr: uint32, mode: nat, s: seq<byte>)
    requires c.Valid() && mode < FIRST_SAME_MODE
    requires DecodeAddress(c, here, mode, s) == Ok((addr, []))
    ensures Varint.Read(s) == Ok((Offset(c, here, addr, mode), []))
  {
    var (v, rest) := Varint.Read(s).value;
    assert v == Offset(c, here, addr, mode) && rest == [];
  }

  /** `bytes` under `mode` denote `addr`, and nothing shorter does under any mode. */
  ghost predicate Best(c: Cache, here: uint32, addr: uint32, mode: nat, bytes: seq<byte>)
    requires c.Valid()
  {
    && mode < CodeTable.COPY_MODES
    && DecodeAddress(c, here, mode, bytes) == Ok((addr, []))
    && forall m, s :: 0 <= m < CodeTable.COPY_MODES && DecodeAddress(c, here, m, s) == Ok((addr, [])) ==>
         |bytes| <= |s|
  }

  /** The mode that is chosen: the first whose number fits one byte, or else that of a remembered address, or
      else the first with the least number. */
  ghost predicate Chosen(c: Cache, here: uint32, addr: uint32, mode: nat)
    requires c.Valid()
  {
    if mode < 6 then
      && (forall m :: 0 <= m < mode ==> Offset(c, here, addr, m) > if Offset(c, here, addr, mode) < 128 then 127 else Offset(c, here, addr, mode))
      && (Offset(c, here, addr, mode) >= 128 ==> c.same[addr % 768] != addr && forall m :: 0 <= m < 6 ==> Offset(c, here, addr, m) >= Offset(c, here, addr, mode))
    else mode == 6 + addr % 768 / 256 && c.same[addr % 768] == addr && forall m :: 0 <= m < 6 ==> Offset(c, here, addr, m) >= 128
  }

  /** A single byte cannot be beaten. */
  lemma OneByteIsBest(c: Cache, here: uint32, addr: uint32, mode: nat, bytes: seq<byte>)
    requires c.Valid() && mode < CodeTable.COPY_MODES && |bytes| == 1
    requires DecodeAddress(c, here, mode, bytes) == Ok((addr, []))
    ensures Best(c, here, addr, mode, bytes)
  {
    forall m, s | 0 <= m < CodeTable.COPY_MODES && DecodeAddress(c, here, m, s) == Ok((addr, []))
      ensures |bytes| <= |s|
    {
      assert s != [];
    }
  }

  /** The least integer is best when no remembered address matches. */
  lemma LeastOffsetIsBest(c: Cache, here: uint32, addr: uint32, mode: nat)
    requires c.Valid() && mode < FIRST_SAME_MODE
    requires forall m :: 0 <= m < FIRST_SAME_MODE ==>
               Offset(c, here, addr, mode) <= Offset(c, here, addr, m)
    requires Filed(c) && addr != 0 && c.same[addr % SAME] != addr
    ensures Best(c, here, addr, mode, Varint.Encode(Offset(c, here, addr, mode)))
  {
    var d := Offset(c, here, addr, mode);
    OffsetDecodes(c, here, addr, mode);
    forall m, s | 0 <= m < CodeTable.COPY_MODES && DecodeAddress(c, here, m, s) == Ok((addr, []))
      ensures |Varint.Encode(d)| <= |s|
    {
      if m < FIRST_SAME_MODE {
        OffsetUnique(c, here, addr, m, s);
        Varint.EncodeShortest(s);
        Varint.LeadingMonotone(d / 128, Offset(c, here, addr, m) / 128);
      }
    }
  }

  /** Every remembered address sits at its own remainder, or is still zero. */
  ghost predicate Filed(c: Cache)
    requires c.Valid()
  {
    forall k :: 0 <= k < SAME ==> c.same[k] == 0 || c.same[k] % SAME == k
  }

  lemma FiledUsed(c: Cache, addr: uint32)
    requires c.Valid() && Filed(c)
    ensures Filed(c.Used(addr))
  {
  }

  // What the caches hold, by the addresses used in a window.

  /** The caches after some addresses. */
  function After(addrs: seq<uint32>): (c: Cache)
    ensures c.Valid()
  {
    if addrs == [] then Empty() else After(addrs[..|addrs| - 1]).Used(addrs[|addrs| - 1])
  }

  lemma {:induction false} NextIs(addrs: seq<uint32>)
    ensures After(addrs).next == |addrs| % 4
  {
    if addrs != [] {
      NextIs(addrs[..|addrs| - 1]);
      assert (|addrs| - 1 + 1) % 4 == ((|addrs| - 1) % 4 + 1) % 4;
    }
  }

  /** Each of the last four addresses is in the slot of its turn. */
  lemma {:induction false} NearIs(addrs: seq<uint32>, i: nat)
    requires i < |addrs| <= i + 4
    ensures After(addrs).near[i % 4] == addrs[i]
  {
    var n := |addrs| - 1;
    NextIs(addrs[..n]);
    if i < n {
      NearIs(addrs[..n], i);
      assert i % 4 != n % 4;
    }
  }

  lemma {:induction false} NearUnused(addrs: seq<uint32>, k: nat)
    requires |addrs| <= k < 4
    ensures After(addrs).near[k] == 0
  {
    if addrs != [] {
      var n := |addrs| - 1;
      NextIs(addrs[..n]);
      NearUnused(addrs[..n], k);
    }
  }

  /** The last address with a remainder is the one remembered for it. */
  lemma {:induction false} SameIs(addrs: seq<uint32>, i: nat)
    requires i < |addrs| && forall j :: i < j < |addrs| ==> addrs[j] % 768 != addrs[i] % 768
    ensures After(addrs).same[addrs[i] % 768] == addrs[i]
  {
    var n := |addrs| - 1;
    if i < n {
      assert addrs[..n][i] == addrs[i];
      SameIs(addrs[..n], i);
    }
  }

  lemma {:induction false} SameUnused(addrs: seq<uint32>, r: nat)
    requires r < 768 && forall j :: 0 <= j < |addrs| ==> addrs[j] % 768 != r
    ensures After(addrs).same[r] == 0
  {
    if addrs != [] {
      SameUnused(addrs[..|addrs| - 1], r);
    }
  }

  /** Modes 0 and 1: the number itself, or so far back from the current position. */
  lemma DirectMeans(c: Cache, here: uint32, v: uint32, rest: seq<byte>)
    requires c.Valid()
    ensures DecodeAddress(c, here, 0, Varint.Encode(v) + rest) == Ok((v, rest))
    ensures DecodeAddress(c, here, 1, Varint.Encode(v) + rest) == Ok(((here - v) % 0x1_0000_0000, rest))
  {
    Varint.RoundTrip(v, rest);
  }

  /** Modes 2 to 5: so far on from one of the last four addresses. */
  lemma NearMeans(addrs: seq<uint32>, i: nat, here: uint32, v: uint32, rest: seq<byte>)
    requires i < |addrs| <= i + 4
    ensures DecodeAddress(After(addrs), here, 2 + i % 4, Varint.Encode(v) + rest) == Ok(((addrs[i] + v) % 0x1_0000_0000, rest))
  {
    hide After, DecodeAddress;
    NearIs(addrs, i);
    RecentAt(After(addrs), here, i % 4, v, rest);
  }

  lemma RecentAt(c: Cache, here: uint32, k: nat, v: uint32, rest: seq<byte>)
    requires c.Valid() && k < 4
    ensures DecodeAddress(c, here, 2 + k, Varint.Encode(v) + rest) == Ok(((c.near[k] + v) % 0x1_0000_0000, rest))
  {
    Varint.RoundTrip(v, rest);
  }

  /** Modes 6 to 8: the last address with the remainder that the mode and one byte give. */
  lemma SameMeans(addrs: seq<uint32>, i: nat, r: nat, here: uint32, rest: seq<byte>)
    requires i < |addrs| && r == addrs[i] % 768 && forall j :: i < j < |addrs| ==> addrs[j] % 768 != r
    ensures DecodeAddress(After(addrs), here, 6 + r / 256, [r % 256] + rest) == Ok((addrs[i], rest))
  {
    hide After, DecodeAddress;
    SameIs(addrs, i);
    RememberedAt(After(addrs), here, r, rest);
  }

  lemma RememberedAt(c: Cache, here: uint32, r: nat, rest: seq<byte>)
    requires c.Valid() && r < 768
    ensures DecodeAddress(c, here, 6 + r / 256, [r % 256] + rest) == Ok((c.same[r], rest))
  {
    var b: byte := r % 256;
    assert ([b] + rest)[1..] == rest;
    assert r / 256 * 256 + b == r;
  }

  /** The caches as the encoder and the decoder keep them. */
  class Caches {
    const near: array<uint32>
    const same: array<uint32>
    var next: nat

    ghost predicate Valid()
      reads this, near, same
    {
      near.Length == NEAR && same.Length == SAME && next < NEAR && near != same
    }

    ghost function View(): (c: Cache)
      requires Valid()
      reads this, near, same
      ensures c.Valid()
    {
      Cache(near[..], next, same[..])
    }

    constructor ()
      ensures Valid() && View() == Empty() && fresh(near) && fresh(same)
    {
      near := new uint32[NEAR](_ => 0);
      same := new uint32[SAME](_ => 0);
      next := 0;
      new;
      assert near[..] == Zeroes(NEAR) && same[..] == Zeroes(SAME);
    }

    method Use(addr: uint32)
      requires Valid()
      modifies this, near, same
      ensures Valid() && View() == old(View()).Used(addr)
    {
      near[next] := addr;
      next := (next + 1) % NEAR;
      same[addr % SAME] := addr;
      assert near[..] == old(near[..])[old(next) := addr];
      assert same[..] == old(same[..])[addr % SAME := addr];
    }

    /** Tries the modes in order, keeping the least integer and stopping at the first that fits
        one byte, then tries the remembered address. */
    method Encode(addr: uint32, here: uint32) returns (mode: nat, bytes: seq<byte>)
      requires Valid() && Filed(View()) && addr < here
      modifies this, near, same
      ensures Valid() && View() == old(View()).Used(addr) && Filed(View())
      ensures Best(old(View()), here, addr, mode, bytes) && Chosen(old(View()), here, addr, mode)
    {
      ghost var c := View();
      var least;
      mode, least := Least(addr, here);
      var slot := addr % SAME;
      if least >= 128 && same[slot] == addr {
        mode, bytes := FIRST_SAME_MODE + slot / 256, [slot % 256];
        assert slot / 256 * 256 + slot % 256 == slot && bytes[1..] == [];
        OneByteIsBest(c, here, addr, mode, bytes);
      } else {
        bytes := Varint.Emit(least);
        OffsetDecodes(c, here, addr, mode);
        if least < 128 {
          OneByteIsBest(c, here, addr, mode, bytes);
        } else {
          assert least <= Offset(c, here, addr, 0);
          LeastOffsetIsBest(c, here, addr, mode);
        }
      }
      FiledUsed(c, addr);
      Use(addr);
    }

    /** The best integer mode: no mode beats it unless it already fits one byte. */
    method Least(addr: uint32, here: uint32) returns (mode: nat, least: uint32)
      requires Valid() && addr < here
      ensures mode < FIRST_SAME_MODE && least == Offset(View(), here, addr, mode)
      ensures least < 128 || forall m :: 0 <= m < FIRST_SAME_MODE ==> least <= Offset(View(), here, addr, m)
      ensures forall m :: 0 <= m < mode ==> Offset(View(), here, addr, m) > if least < 128 then 127 else least
    {
      mode, least := 0, addr;
      if least < 128 {
        return;
      }
      if here - addr < least {
        mode, least := 1, here - addr;
        if least < 128 {
          return;
        }
      }
      for i := 0 to NEAR
        invariant mode < FIRST_SAME_MODE && least == Offset(View(), here, addr, mode)
        invariant least >= 128 && forall m :: 0 <= m < 2 + i ==> least <= Offset(View(), here, addr, m)
        invariant mode < 2 + i && forall m :: 0 <= m < mode ==> Offset(View(), here, addr, m) > least
      {
        var d := Diff32(addr, near[i]);
        if d < least {
          mode, least := i + 2, d;
          if least < 128 {
            return;
          }
        }
      }
    }

    method Decode(here: uint32, mode: nat, s: seq<byte>) returns (r: Result<(uint32, seq<byte>)>)
      requires Valid() && mode < CodeTable.COPY_MODES
      modifies this, near, same
      ensures Valid() && r == DecodeAddress(old(View()), here, mode, s)
      ensures View() == if r.Ok? then old(View()).Used(r.value.0) else old(View())
    {
      if mode < FIRST_SAME_MODE {
        var q := Varint.Scan(s);
        if q.Invalid? {
          return Invalid;
        }
        var v := q.value.0;
        if mode == 1 {
          v := Diff32(here, v);
        } else if mode > 1 {
          v := Sum32(v, near[mode - 2]);
        }
        r := Ok((v, q.value.1));
      } else {
        if s == [] {
          return Invalid;
        }
        r := Ok((same[(mode - FIRST_SAME_MODE) * 256 + s[0]], s[1..]));
      }
      Use(r.value.0);
    }
  }
}
