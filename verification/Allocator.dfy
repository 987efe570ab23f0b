/** The bitmap allocator. Allocations may be deferred: recorded as short ranges first and put into the
    bitmap later. */
module Allocator {

  datatype Range = Range(chunk: nat, count: nat)

  const MAX_DEFERRED := 500

  /** A byte of the bitmap with nothing to be had. */
  const FULL := [true, true, true, true, true, true, true, true]

  ghost function Span(r: Range): set<nat>
    decreases r.count
  {
    if r.count == 0 then {} else Span(Range(r.chunk, r.count - 1)) + {r.chunk + r.count - 1}
  }

  lemma {:induction false} InSpan(r: Range, c: nat)
    ensures c in Span(r) <==> r.chunk <= c < r.chunk + r.count
    decreases r.count
  {
    if r.count > 0 {
      InSpan(Range(r.chunk, r.count - 1), c);
    }
  }

  ghost function Spans(rs: seq<Range>): set<nat> {
    if rs == [] then {} else Spans(rs[..|rs| - 1]) + Span(rs[|rs| - 1])
  }

  function Total(rs: seq<Range>): nat {
    if rs == [] then 0 else Total(rs[..|rs| - 1]) + rs[|rs| - 1].count
  }

  lemma {:induction false} InSpans(rs: seq<Range>, c: nat)
    ensures c in Spans(rs) <==> exists i :: 0 <= i < |rs| && rs[i].chunk <= c < rs[i].chunk + rs[i].count
  {
    if rs != [] {
      InSpans(rs[..|rs| - 1], c);
      InSpan(rs[|rs| - 1], c);
    }
  }

  /** Handed out, but not in the bitmap yet. */
  ghost function Deferred(open_: Range, rs: seq<Range>): set<nat> {
    Span(open_) + Spans(rs)
  }

  ghost function Zeros(bits: seq<bool>): set<nat> {
    set c | 0 <= c < |bits| && !bits[c]
  }

  lemma BitSet(bits: seq<bool>, c: nat)
    requires c < |bits|
    ensures Zeros(bits[c := true]) == Zeros(bits) - {c} && Zeros(bits[c := false]) == Zeros(bits) + {c}
  {
  }

  lemma {:induction false} SpanSize(r: Range)
    ensures |Span(r)| == r.count
    decreases r.count
  {
    if r.count > 0 {
      SpanSize(Range(r.chunk, r.count - 1));
      InSpan(Range(r.chunk, r.count - 1), r.chunk + r.count - 1);
    }
  }

  lemma {:induction false} SpansSize(rs: seq<Range>)
    ensures |Spans(rs)| <= Total(rs)
  {
    if rs != [] {
      SpansSize(rs[..|rs| - 1]);
      SpanSize(rs[|rs| - 1]);
      UnionSize(Spans(rs[..|rs| - 1]), Span(rs[|rs| - 1]));
    }
  }

  lemma UnionSize(a: set<nat>, b: set<nat>)
    ensures |a + b| <= |a| + |b|
    ensures |a + b| == |a| + |b| ==> a !! b
  {
    assert a + b == a + (b - a);
    assert |a + (b - a)| == |a| + |b - a|;
    assert b == (b - a) + (b * a);
    assert |b| == |b - a| + |b * a|;
    if x :| x in a && x in b {
      assert x in b * a;
    }
  }

  /** The first chunk at `from` or after it, or else the first of all. */
  ghost predicate NextFrom(unused: set<nat>, from: nat, chunk: nat) {
    if chunk >= from then forall c :: c in unused ==> c < from || chunk <= c
    else forall c :: c in unused ==> chunk <= c < from
  }

  class Allocator {
    const total: nat
    const deferring: bool
    var bits: array<bool>
    var last: nat
    var free: int
    /** The range still open, and those closed by a commit. */
    var open_: Range
    var closed: seq<Range>

    ghost function Waiting(): set<nat>
      reads this
    {
      Deferred(open_, closed)
    }

    /** Chunks that may be handed out: neither in the bitmap nor deferred. */
    ghost function Unused(): set<nat>
      reads this, bits
    {
      Zeros(bits[..]) - Waiting()
    }

    /** Bits past the end of the space are set; deferred chunks are distinct and not in the bitmap;
        the free count is what neither has. */
    ghost predicate Valid()
      reads this, bits
    {
      && bits.Length == (total + 7) / 8 * 8 && last <= total
      && (forall c :: total <= c < bits.Length ==> bits[c])
      && Waiting() <= Zeros(bits[..]) && |Waiting()| == open_.count + Total(closed)
      && free == |Zeros(bits[..])| - |Waiting()|
      && open_.count <= 2
    }

    constructor (total: nat, reserved: nat, deferring: bool)
      requires reserved <= total
      ensures Valid() && fresh(bits) && Unused() == Span(Range(reserved, total - reserved)) && this.total == total
    {
      this.total, this.deferring := total, deferring;
      bits := new bool[(total + 7) / 8 * 8](c => c < reserved || c >= total);
      last, open_, closed := 0, Range(0, 0), [];
      free := total - reserved;
      new;
      CountFree(bits[..], reserved, total);
    }

    /** Whether a chunk is deferred. */
    method IsDeferred(chunk: nat) returns (deferred: bool)
      ensures deferred <==> chunk in Waiting()
    {
      InSpan(open_, chunk);
      InSpans(closed, chunk);
      if open_.chunk <= chunk < open_.chunk + open_.count {
        return true;
      }
      for i := 0 to |closed|
        invariant forall k :: 0 <= k < i ==> !(closed[k].chunk <= chunk < closed[k].chunk + closed[k].count)
      {
        if closed[i].chunk <= chunk < closed[i].chunk + closed[i].count {
          return true;
        }
      }
      return false;
    }

    /** The first chunk to be had in the bytes that hold the range, or -1. */
    method Search(start: nat, count: nat) returns (chunk: int)
      requires Valid() && start + count <= total
      ensures chunk >= 0 ==> start / 8 * 8 <= chunk < total && chunk in Unused() && forall c :: start / 8 * 8 <= c < chunk ==> c !in Unused()
      ensures chunk < 0 ==> chunk == -1 && forall c :: start / 8 * 8 <= c < start + count ==> c !in Unused()
    {
      hide Deferred, Total;
      var byte := start / 8;
      var end := byte + (count + start % 8 + 7) / 8;
      while byte < end
        invariant start / 8 <= byte <= end && end * 8 <= bits.Length && start + count <= end * 8
        invariant forall c :: start / 8 * 8 <= c < byte * 8 ==> c !in Unused()
      {
        chunk := SearchByte(byte);
        if chunk >= 0 {
          return;
        }
        byte := byte + 1;
      }
      return -1;
    }

    method SearchByte(byte: nat) returns (chunk: int)
      requires Valid() && byte * 8 + 8 <= bits.Length
      ensures chunk >= 0 ==> byte * 8 <= chunk < total && chunk in Unused() && forall c :: byte * 8 <= c < chunk ==> c !in Unused()
      ensures chunk < 0 ==> chunk == -1 && forall c :: byte * 8 <= c < byte * 8 + 8 ==> c !in Unused()
    {
      hide Deferred, Total;
      if bits[byte * 8..byte * 8 + 8] == FULL {
        FullByte(bits[..], byte * 8);
        return -1;
      }
      for i := 0 to 8
        invariant forall c :: byte * 8 <= c < byte * 8 + i ==> c !in Unused()
      {
        if !bits[byte * 8 + i] {
          var deferred := IsDeferred(byte * 8 + i);
          if !deferred {
            return byte * 8 + i;
          }
        }
      }
      return -1;
    }

    /** Hands out a chunk: in a deferred range if there is room for that, or else in the bitmap. */
    method Take(chunk: nat)
      requires Valid() && chunk < total && chunk in Unused()
      modifies this`open_, this`free, bits
      ensures Valid() && free == old(free) - 1 && Unused() == old(Unused()) - {chunk}
      ensures if deferring && |closed| < 500 && (old(open_).count == 0 || chunk == old(open_).chunk + 1)
        then bits[..] == old(bits[..]) && open_ == if old(open_).count == 0 then Range(chunk, 1) else Range(chunk - 1, 2)
        else bits[..] == old(bits[..])[chunk := true] && open_ == old(open_)
    {
      hide Deferred, Zeros, Total, Span, Spans;
      ghost var was := bits[..];
      if deferring && |closed| < MAX_DEFERRED {
        if open_.count == 0 {
          DeferOne(open_, Range(chunk, 1), closed, chunk);
          open_ := Range(chunk, 1);
          free := free - 1;
          return;
        }
        if chunk == open_.chunk + 1 {
          Apart(open_, closed, chunk);
          DeferOne(open_, Range(open_.chunk, open_.count + 1), closed, chunk);
          open_ := Range(open_.chunk, open_.count + 1);
          free := free - 1;
          return;
        }
      }
      ZeroBelow(was, total, chunk);
      BitSet(was, chunk);
      bits[chunk] := true;
      assert bits[..] == was[chunk := true];
      free := free - 1;
    }

    /** Hands out a chunk, looking from the last one on and then from the start: any chunk to be had
        is found. */
    method Alloc() returns (chunk: int)
      requires Valid()
      modifies this`open_, this`free, this`last, bits
      ensures Valid() && (chunk == -1 <==> old(Unused()) == {})
      ensures chunk == -1 ==> Unused() == {} && free == old(free) == 0
      ensures chunk != -1 ==> 0 <= chunk < total && chunk in old(Unused()) && Unused() == old(Unused()) - {chunk} && free == old(free) - 1
      ensures chunk != -1 ==> last == chunk && NextFrom(old(Unused()), old(last) / 8 * 8, chunk)
    {
      hide Deferred, Total, Span, Spans;
      chunk := Search(last, total - last);
      if chunk < 0 {
        chunk := Search(0, last);
      }
      if chunk >= 0 {
        Take(chunk);
        last := chunk;
      } else {
        forall c | c in Zeros(bits[..])
          ensures c in Waiting()
        {
          ZeroBelow(bits[..], total, c);
          assert c !in Unused();
        }
        assert Zeros(bits[..]) == Waiting();
      }
    }

    /** Gives a chunk back. One that is not in the bitmap is left alone. */
    method Free(chunk: nat) returns (ok: bool)
      requires Valid() && chunk < total
      modifies this`free, bits
      ensures Valid() && ok == old(bits[chunk])
      ensures free == old(free) + (if ok then 1 else 0) && Unused() == old(Unused()) + if ok then {chunk} else {}
    {
      hide Deferred, Total, Span, Spans;
      if !bits[chunk] {
        return false;
      }
      ghost var was := bits[..];
      BitSet(was, chunk);
      bits[chunk] := false;
      assert bits[..] == was[chunk := false];
      free := free + 1;
      return true;
    }

    /** A commit closes the open range. */
    method Commit()
      requires Valid()
      modifies this`open_, this`closed
      ensures Valid() && open_.count == 0 && Unused() == old(Unused()) && Waiting() == old(Waiting())
      ensures closed == old(closed) + if old(open_).count > 0 then [old(open_)] else []
    {
      hide Zeros;
      if open_.count > 0 {
        Closed(open_, closed);
        closed, open_ := closed + [open_], Range(open_.chunk, 0);
      }
    }

    /** Puts the closed ranges into the bitmap. */
    method Flush()
      requires Valid()
      modifies this`closed, bits
      ensures Valid() && closed == [] && Unused() == old(Unused()) && free == old(free)
    {
      hide Zeros, Span, Spans, Total, Deferred;
      ghost var was := bits[..];
      FlushSize(Zeros(was), open_, closed);
      SpansIn(open_, closed);
      ZerosIn(was);
      SetClosed(Zeros(was));
      closed := [];
    }

    /** Sets the bits of the closed ranges. */
    method SetClosed(ghost zeros: set<nat>)
      requires Spans(closed) <= zeros && forall c :: c in zeros ==> c < bits.Length
      modifies bits
      ensures Zeros(bits[..]) == old(Zeros(bits[..])) - Spans(closed)
      ensures forall c :: 0 <= c < bits.Length && old(bits[c]) ==> bits[c]
    {
      hide Zeros, Span, Spans;
      ghost var was := bits[..];
      assert closed[..0] == [];
      NoSpans();
      for i := 0 to |closed|
        invariant Zeros(bits[..]) == Zeros(was) - Spans(closed[..i])
        invariant forall c :: 0 <= c < bits.Length && old(bits[c]) ==> bits[c]
      {
        SpansNext(closed, i);
        SetAllocated(closed[i], zeros);
      }
      assert closed[..|closed|] == closed;
    }

    /** Sets the bits of a range. */
    method SetAllocated(r: Range, ghost zeros: set<nat>)
      requires Span(r) <= zeros && forall c :: c in zeros ==> c < bits.Length
      modifies bits
      ensures Zeros(bits[..]) == old(Zeros(bits[..])) - Span(r)
      ensures forall c :: 0 <= c < bits.Length && old(bits[c]) ==> bits[c]
    {
      hide Span;
      ghost var was := bits[..];
      NoSpan(r.chunk);
      for i := 0 to r.count
        invariant Zeros(bits[..]) == Zeros(was) - Span(Range(r.chunk, i))
        invariant forall c :: 0 <= c < bits.Length && old(bits[c]) ==> bits[c]
      {
        InSpan(r, r.chunk + i);
        SpanNext(r.chunk, i);
        BitSet(bits[..], r.chunk + i);
        ghost var before := bits[..];
        bits[r.chunk + i] := true;
        assert bits[..] == before[r.chunk + i := true];
      }
    }
  }

  lemma FullByte(bits: seq<bool>, at: nat)
    requires at + 8 <= |bits| && bits[at..at + 8] == FULL
    ensures forall c :: at <= c < at + 8 ==> c !in Zeros(bits)
  {
    forall c | at <= c < at + 8
      ensures bits[c]
    {
      assert bits[c] == bits[at..at + 8][c - at];
    }
  }

  lemma ZerosIn(bits: seq<bool>)
    ensures forall c :: c in Zeros(bits) ==> c < |bits|
  {
  }

  lemma SpansIn(open_: Range, closed: seq<Range>)
    ensures Spans(closed) <= Deferred(open_, closed)
  {
  }

  lemma NoSpan(chunk: nat)
    ensures Span(Range(chunk, 0)) == {}
  {
  }

  lemma SpanNext(chunk: nat, count: nat)
    ensures Span(Range(chunk, count + 1)) == Span(Range(chunk, count)) + {chunk + count}
  {
  }

  lemma NoSpans()
    ensures Spans([]) == {}
  {
  }

  lemma SpansNext(rs: seq<Range>, i: nat)
    requires i < |rs|
    ensures Spans(rs[..i + 1]) == Spans(rs[..i]) + Span(rs[i]) && Span(rs[i]) <= Spans(rs)
  {
    assert rs[..i + 1][..i] == rs[..i];
    forall c | c in Span(rs[i])
      ensures c in Spans(rs)
    {
      InSpan(rs[i], c);
      InSpans(rs, c);
    }
  }

  /** If the counts add up, the ranges do not overlap. */
  lemma SpansSplit(open_: Range, closed: seq<Range>)
    requires |Deferred(open_, closed)| == open_.count + Total(closed)
    ensures Span(open_) !! Spans(closed) && |Spans(closed)| == Total(closed) && |Span(open_)| == open_.count
  {
    SpanSize(open_);
    SpansSize(closed);
    UnionSize(Span(open_), Spans(closed));
  }

  lemma FlushSize(zeros: set<nat>, open_: Range, closed: seq<Range>)
    requires Deferred(open_, closed) <= zeros && |Deferred(open_, closed)| == open_.count + Total(closed)
    ensures Deferred(open_, []) == Span(open_) && |Span(open_)| == open_.count + Total([])
    ensures |zeros - Spans(closed)| - |Span(open_)| == |zeros| - |Deferred(open_, closed)|
    ensures zeros - Spans(closed) - Span(open_) == zeros - Deferred(open_, closed)
    ensures Span(open_) <= zeros - Spans(closed)
  {
    SpansSplit(open_, closed);
    hide Span, Spans, Total;
    SplitSizes(zeros, Span(open_), Spans(closed));
    NoRanges();
  }

  lemma NoRanges()
    ensures Total([]) == 0 && Spans([]) == {}
  {
  }

  lemma SplitSizes(zeros: set<nat>, a: set<nat>, b: set<nat>)
    requires a + b <= zeros && a !! b
    ensures |zeros - b| - |a| == |zeros| - |a + b| && zeros - b - a == zeros - (a + b) && a <= zeros - b
  {
    assert zeros == (zeros - b) + b;
    assert |a + b| == |a| + |b|;
  }

  /** The open range put behind the closed ones. */
  lemma Closed(open_: Range, closed: seq<Range>)
    ensures Deferred(Range(open_.chunk, 0), closed + [open_]) == Deferred(open_, closed)
    ensures Total(closed + [open_]) == Total(closed) + open_.count
  {
    var all := closed + [open_];
    assert all[..|all| - 1] == closed;
  }

  lemma ZeroBelow(bits: seq<bool>, total: nat, c: nat)
    requires c in Zeros(bits) && forall k :: total <= k < |bits| ==> bits[k]
    ensures c < |bits| && c < total && !bits[c]
  {
  }

  /** The open range takes in one more chunk. */
  lemma DeferOne(a: Range, b: Range, closed: seq<Range>, chunk: nat)
    requires chunk !in Deferred(a, closed) && b.count == a.count + 1 && b.chunk + a.count == chunk && (a.count == 0 || a.chunk == b.chunk)
    ensures Deferred(b, closed) == Deferred(a, closed) + {chunk}
  {
    forall c: nat
      ensures c in Span(b) <==> c in Span(a) || c == chunk
    {
      InSpan(a, c);
      InSpan(b, c);
    }
  }

  /** A chunk right after the start of the open range that is not in it is right after its end. */
  lemma Apart(open_: Range, closed: seq<Range>, chunk: nat)
    requires chunk !in Deferred(open_, closed) && chunk == open_.chunk + 1 && open_.count > 0
    ensures open_.count == 1
  {
    InSpan(open_, chunk);
  }

  lemma CountFree(bits: seq<bool>, reserved: nat, total: nat)
    requires reserved <= total <= |bits| && forall c :: 0 <= c < |bits| ==> (bits[c] <==> c < reserved || c >= total)
    ensures Zeros(bits) == Span(Range(reserved, total - reserved)) && |Zeros(bits)| == total - reserved
  {
    forall c: nat
      ensures c in Zeros(bits) <==> c in Span(Range(reserved, total - reserved))
    {
      InSpan(Range(reserved, total - reserved), c);
    }
    SpanSize(Range(reserved, total - reserved));
  }
}
