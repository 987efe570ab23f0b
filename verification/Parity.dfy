/** Parity of the fragments of a block, and a lost fragment recovered in place. */
module Parity {

  type Word = bv64

  /** Exclusive-or, and all that is used of it. */
  function Plus(a: Word, b: Word): Word {
    a ^ b
  }

  lemma Nothing(a: Word, b: Word)
    ensures Plus(0, a) == a && (Plus(a, b) == 0 <==> a == b)
  {
    assert 0 ^ a == a;
    Zero(a, b);
  }

  lemma Zero(a: Word, b: Word)
    ensures Plus(a, b) == 0 <==> a == b
  {
    hide Plus;
    if Plus(a, b) == 0 {
      Regroup(a, b, b);
      Self(b);
      Turn(a, 0);
      Left(a);
      Left(b);
    } else if a == b {
      Self(a);
    }
  }

  lemma Self(a: Word)
    ensures Plus(a, a) == 0
  {
  }

  lemma Left(a: Word)
    ensures Plus(0, a) == a
  {
  }

  lemma Cancel(a: Word, b: Word, x: Word)
    ensures Plus(a, x) == Plus(Plus(Plus(a, b), b), x)
  {
    assert (a ^ b) ^ b == a;
  }

  lemma Swap(a: Word, b: Word, x: Word, c: Word)
    ensures Plus(Plus(Plus(a, b), x), c) == Plus(Plus(Plus(a, c), b), x)
  {
    hide Plus;
    Exchange(Plus(a, b), x, c);
    Exchange(a, b, c);
  }

  lemma Exchange(a: Word, b: Word, c: Word)
    ensures Plus(Plus(a, b), c) == Plus(Plus(a, c), b)
  {
    hide Plus;
    Regroup(a, b, c);
    Regroup(a, c, b);
    Turn(b, c);
  }

  lemma Regroup(a: Word, b: Word, c: Word)
    ensures Plus(Plus(a, b), c) == Plus(a, Plus(b, c))
  {
  }

  lemma Turn(a: Word, b: Word)
    ensures Plus(a, b) == Plus(b, a)
  {
  }

  lemma Twice(a: Word, b: Word)
    ensures Plus(Plus(a, b), a) == b
  {
    assert (a ^ b) ^ a == b;
  }

  /** Where word `i` of fragment `k` is. */
  function At(k: nat, i: nat, stride: nat): nat {
    k * stride + i
  }

  /** The exclusive-or of word `i` of the first `n` fragments. */
  function Xor(v: seq<Word>, i: nat, stride: nat, n: nat): Word
    requires i < stride && n * stride <= |v|
  {
    if n == 0 then 0
    else
      InBlock(n - 1, i, stride, n);
      assert (n - 1) * stride <= n * stride;
      Plus(Xor(v, i, stride, n - 1), v[At(n - 1, i, stride)])
  }

  lemma InBlock(k: nat, i: nat, stride: nat, n: nat)
    requires k < n && i < stride
    ensures At(k, i, stride) < n * stride
  {
    assert (k + 1) * stride <= n * stride;
    assert (k + 1) * stride == k * stride + stride;
  }

  /** Different words are in different places. */
  lemma PlacesDiffer(k: nat, i: nat, d: nat, j: nat, stride: nat)
    requires i < stride && j < stride && At(k, i, stride) == At(d, j, stride)
    ensures k == d && i == j
  {
    if k < d {
      InBlock(k, i, stride, d);
    } else if d < k {
      InBlock(d, j, stride, k);
    }
  }

  lemma XorStep(v: seq<Word>, i: nat, stride: nat, n: nat)
    requires i < stride && (n + 1) * stride <= |v|
    ensures n * stride <= |v| && At(n, i, stride) < |v| && Xor(v, i, stride, n + 1) == Plus(Xor(v, i, stride, n), v[At(n, i, stride)])
  {
    InBlock(n, i, stride, n + 1);
    assert n * stride <= (n + 1) * stride;
  }

  lemma NoneYet(v: seq<Word>, i: nat, stride: nat)
    requires i < stride
    ensures Xor(v, i, stride, 0) == 0
  {
  }

  /** The parity depends only on its own column. */
  lemma {:induction false} XorSame(v: seq<Word>, w: seq<Word>, i: nat, stride: nat, n: nat)
    requires i < stride && n * stride <= |v| == |w|
    requires forall k :: 0 <= k < n && At(k, i, stride) < |v| ==> w[At(k, i, stride)] == v[At(k, i, stride)]
    ensures Xor(v, i, stride, n) == Xor(w, i, stride, n)
  {
    hide Plus, Xor;
    if n == 0 {
      NoneYet(v, i, stride);
      NoneYet(w, i, stride);
    } else {
      assert (n - 1) * stride <= n * stride;
      XorStep(v, i, stride, n - 1);
      XorStep(w, i, stride, n - 1);
      XorSame(v, w, i, stride, n - 1);
    }
  }

  /** One fragment's word replaced. */
  lemma {:induction false} XorReplaced(v: seq<Word>, i: nat, stride: nat, n: nat, d: nat, x: Word)
    requires i < stride && n * stride <= |v| && d < n && At(d, i, stride) < |v|
    ensures Xor(v[At(d, i, stride) := x], i, stride, n) == Plus(Plus(Xor(v, i, stride, n), v[At(d, i, stride)]), x)
  {
    hide Plus, Xor;
    var w := v[At(d, i, stride) := x];
    assert (n - 1) * stride <= n * stride;
    XorStep(v, i, stride, n - 1);
    XorStep(w, i, stride, n - 1);
    if d == n - 1 {
      forall k | 0 <= k < n - 1 && At(k, i, stride) < |v|
        ensures w[At(k, i, stride)] == v[At(k, i, stride)]
      {
        if At(k, i, stride) == At(d, i, stride) {
          PlacesDiffer(k, i, d, i, stride);
        }
      }
      XorSame(v, w, i, stride, n - 1);
      Cancel(Xor(v, i, stride, n - 1), v[At(d, i, stride)], x);
    } else {
      XorReplaced(v, i, stride, n - 1, d, x);
      if At(n - 1, i, stride) == At(d, i, stride) {
        PlacesDiffer(n - 1, i, d, i, stride);
      }
      Swap(Xor(v, i, stride, n - 1), v[At(d, i, stride)], x, v[At(n - 1, i, stride)]);
    }
  }

  /** With the parity in the lost word's place, the parity of the column is the lost word. */
  lemma LostWord(v: seq<Word>, i: nat, stride: nat, n: nat, d: nat)
    requires i < stride && n * stride <= |v| && d < n && At(d, i, stride) < |v|
    ensures Xor(v[At(d, i, stride) := Xor(v, i, stride, n)], i, stride, n) == v[At(d, i, stride)]
  {
    hide Plus, Xor;
    XorReplaced(v, i, stride, n, d, Xor(v, i, stride, n));
    Twice(Xor(v, i, stride, n), v[At(d, i, stride)]);
  }

  /** The destination is another buffer, or one of the fragments. */
  ghost predicate Apart(v: array<Word>, p: array<Word>, at: nat, frags: nat, stride: nat) {
    p == v ==> exists d :: 0 <= d < frags && at == At(d, 0, stride)
  }

  /** What has been written when `done` words are: the rest of both buffers is as it was. */
  ghost predicate Written(now: seq<Word>, was: seq<Word>, v: seq<Word>, at: nat, frags: nat, stride: nat, done: nat)
    requires frags * stride <= |v| && at + stride <= |was| == |now| && done <= stride
  {
    forall q :: 0 <= q < |now| ==> now[q] == if at <= q < at + done then Xor(v, q - at, stride, frags) else was[q]
  }

  /** The column still to be read has not been touched, even if the destination is a fragment. */
  lemma Untouched(v: array<Word>, p: array<Word>, at: nat, frags: nat, stride: nat, now: seq<Word>, was: seq<Word>, i: nat, k: nat)
    requires Apart(v, p, at, frags, stride) && p == v && i < stride && frags * stride <= |was| == |now| && at + stride <= |was|
    requires Written(now, was, was, at, frags, stride, i) && At(k, i, stride) < |now|
    ensures now[At(k, i, stride)] == was[At(k, i, stride)]
  {
    var d :| 0 <= d < frags && at == At(d, 0, stride);
    var q := At(k, i, stride);
    if at <= q < at + i {
      assert q == At(d, q - at, stride);
      PlacesDiffer(k, i, d, q - at, stride);
    }
  }

  lemma First(v: seq<Word>, i: nat, stride: nat)
    requires i < stride <= |v|
    ensures Xor(v, i, stride, 1) == v[i] && At(0, i, stride) == i
  {
    hide Plus;
    XorStep(v, i, stride, 0);
    Nothing(v[i], 0);
  }

  lemma Within(n: nat, frags: nat, stride: nat)
    requires n <= frags
    ensures n * stride <= frags * stride
  {
  }

  lemma NextWord(v: seq<Word>, i: nat, stride: nat, n: nat, frags: nat)
    requires 1 <= n < frags && i < stride && frags * stride <= |v|
    ensures At(n, i, stride) == At(n - 1, i, stride) + stride < |v| && n * stride <= (n + 1) * stride <= |v|
    ensures Xor(v, i, stride, n + 1) == Plus(Xor(v, i, stride, n), v[At(n, i, stride)])
  {
    hide Plus, Xor;
    Within(n + 1, frags, stride);
    XorStep(v, i, stride, n);
    assert n * stride == (n - 1) * stride + stride;
  }

  /** One word of parity: the exclusive-or of its column, with a running pointer. */
  method Column(v: array<Word>, i: nat, frags: nat, stride: nat) returns (x: Word)
    requires i < stride && 1 <= frags && frags * stride <= v.Length
    ensures x == Xor(v[..], i, stride, frags)
  {
    hide Plus, Xor, At;
    Within(1, frags, stride);
    First(v[..], i, stride);
    x := v[i];
    var n: nat, q: nat := 1, i;
    while n < frags
      invariant 1 <= n <= frags && n * stride <= v.Length && q == At(n - 1, i, stride) && x == Xor(v[..], i, stride, n)
    {
      NextWord(v[..], i, stride, n, frags);
      q := q + stride;
      x := Plus(x, v[q]);
      n := n + 1;
    }
  }

  /** The parity of all fragments, written over `p`, which may be one of them. */
  method ComputeParity(v: array<Word>, p: array<Word>, at: nat, frags: nat, stride: nat)
    requires 1 <= frags && frags * stride <= v.Length && at + stride <= p.Length && Apart(v, p, at, frags, stride)
    modifies p
    ensures Written(p[..], old(p[..]), old(v[..]), at, frags, stride, stride)
  {
    hide Xor, Plus, Written, Apart;
    ghost var was, from := p[..], v[..];
    NoneWritten(was, from, at, frags, stride);
    for i := 0 to stride
      invariant Written(p[..], was, from, at, frags, stride, i) && (p != v ==> v[..] == from)
    {
      var x := Column(v, i, frags, stride);
      PutWord(v, p, at, frags, stride, i, x, was, from);
    }
  }

  // Blocks of 4096 bytes, that is 512 words

  function Four(a: Word, b: Word, c: Word, d: Word, e: Word): Word {
    Plus(Plus(Plus(Plus(a, b), c), d), e)
  }

  lemma FourMore(v: seq<Word>, i: nat, stride: nat, n: nat, frags: nat)
    requires 1 <= n && n + 4 <= frags && i < stride && frags * stride <= |v|
    ensures n * stride <= |v| && (n + 4) * stride <= |v| && At(n, i, stride) <= At(n + 1, i, stride) <= At(n + 2, i, stride) <= At(n + 3, i, stride) < |v|
    ensures Xor(v, i, stride, n + 4)
         == Four(Xor(v, i, stride, n), v[At(n, i, stride)], v[At(n + 1, i, stride)], v[At(n + 2, i, stride)], v[At(n + 3, i, stride)])
  {
    hide Plus, Xor, At;
    Within(n, frags, stride);
    Within(n + 4, frags, stride);
    XorStepWithin(v, i, stride, n, frags);
    XorStepWithin(v, i, stride, n + 1, frags);
    XorStepWithin(v, i, stride, n + 2, frags);
    XorStepWithin(v, i, stride, n + 3, frags);
  }

  lemma XorStepWithin(v: seq<Word>, i: nat, stride: nat, n: nat, frags: nat)
    requires 1 <= n < frags && i < stride && frags * stride <= |v|
    ensures n * stride <= (n + 1) * stride <= |v| && At(n - 1, i, stride) <= At(n, i, stride) < |v|
    ensures Xor(v, i, stride, n + 1) == Plus(Xor(v, i, stride, n), v[At(n, i, stride)])
  {
    hide Plus, Xor, At;
    NextWord(v, i, stride, n, frags);
  }

  /** Two fragments. */
  method Column2(v: array<Word>, i: nat) returns (x: Word)
    requires i < 256 && 512 <= v.Length
    ensures x == Xor(v[..], i, 256, 2)
  {
    hide Plus, Xor;
    First(v[..], i, 256);
    NextWord(v[..], i, 256, 1, 2);
    x := Plus(v[i], v[i + 256]);
  }

  method FirstFour(v: array<Word>, i: nat, s: nat, frags: nat) returns (x: Word)
    requires i < s && 4 <= frags && frags * s <= v.Length
    ensures 4 * s <= v.Length && x == Xor(v[..], i, s, 4)
  {
    hide Plus, Xor;
    Within(1, frags, s);
    Within(4, frags, s);
    First(v[..], i, s);
    NextWord(v[..], i, s, 1, frags);
    NextWord(v[..], i, s, 2, frags);
    NextWord(v[..], i, s, 3, frags);
    x := Plus(Plus(Plus(v[i], v[i + s]), v[i + 2 * s]), v[i + 3 * s]);
  }

  method NextFour(v: array<Word>, x0: Word, i: nat, s: nat, n: nat, frags: nat) returns (x: Word)
    requires i < s && 1 <= n && n + 4 <= frags && frags * s <= v.Length && n * s <= v.Length && x0 == Xor(v[..], i, s, n)
    ensures (n + 4) * s <= v.Length && x == Xor(v[..], i, s, n + 4)
  {
    hide Plus, Xor, Four;
    FourMore(v[..], i, s, n, frags);
    x := Four(x0, v[At(n, i, s)], v[At(n + 1, i, s)], v[At(n + 2, i, s)], v[At(n + 3, i, s)]);
  }

  /** Four, eight and sixteen fragments, each read in one go. */
  method Column4(v: array<Word>, i: nat) returns (x: Word)
    requires i < 128 && 512 <= v.Length
    ensures x == Xor(v[..], i, 128, 4)
  {
    hide Xor;
    x := FirstFour(v, i, 128, 4);
  }

  method Column8(v: array<Word>, i: nat) returns (x: Word)
    requires i < 64 && 512 <= v.Length
    ensures x == Xor(v[..], i, 64, 8)
  {
    hide Xor;
    x := FirstFour(v, i, 64, 8);
    x := NextFour(v, x, i, 64, 4, 8);
  }

  method Column16(v: array<Word>, i: nat) returns (x: Word)
    requires i < 32 && 512 <= v.Length
    ensures x == Xor(v[..], i, 32, 16)
  {
    hide Xor;
    x := FirstFour(v, i, 32, 16);
    x := NextFour(v, x, i, 32, 4, 16);
    x := NextFour(v, x, i, 32, 8, 16);
    x := NextFour(v, x, i, 32, 12, 16);
  }

  /** Puts one more word of parity in place. */
  method PutWord(v: array<Word>, p: array<Word>, at: nat, frags: nat, stride: nat, i: nat, x: Word, ghost was: seq<Word>, ghost from: seq<Word>)
    requires 1 <= frags && frags * stride <= v.Length == |from| && at + stride <= p.Length == |was| && Apart(v, p, at, frags, stride)
    requires i < stride && Written(p[..], was, from, at, frags, stride, i) && x == Xor(v[..], i, stride, frags)
    requires if p == v then was == from else v[..] == from
    modifies p
    ensures Written(p[..], was, from, at, frags, stride, i + 1) && (p != v ==> v[..] == from)
  {
    hide Xor, Plus;
    if p == v {
      forall k | 0 <= k < frags && At(k, i, stride) < |from|
        ensures v[..][At(k, i, stride)] == from[At(k, i, stride)]
      {
        Untouched(v, p, at, frags, stride, p[..], was, i, k);
      }
    }
    XorSame(from, v[..], i, stride, frags);
    p[at + i] := x;
  }

  /** The cases written out for blocks of 4096 bytes do what the general loop does. */
  method ParityOf4096(v: array<Word>, p: array<Word>, at: nat, frags: nat)
    requires frags in {2, 4, 8, 16} && 512 <= v.Length && at + 512 / frags <= p.Length && Apart(v, p, at, frags, 512 / frags)
    modifies p
    ensures Written(p[..], old(p[..]), old(v[..]), at, frags, 512 / frags, 512 / frags)
  {
    hide Xor, Plus, Written, Apart;
    ghost var was, from := p[..], v[..];
    NoneWritten(was, from, at, frags, 512 / frags);
    match frags {
      case 2 =>
        var i: nat := 0;
        while i < 256
          invariant i <= 256 && i % 4 == 0 && Written(p[..], was, from, at, 2, 256, i) && (p != v ==> v[..] == from)
        {
          var x := Column2(v, i);
          PutWord(v, p, at, 2, 256, i, x, was, from);
          x := Column2(v, i + 1);
          PutWord(v, p, at, 2, 256, i + 1, x, was, from);
          x := Column2(v, i + 2);
          PutWord(v, p, at, 2, 256, i + 2, x, was, from);
          x := Column2(v, i + 3);
          PutWord(v, p, at, 2, 256, i + 3, x, was, from);
          i := i + 4;
        }
      case 4 =>
        for i := 0 to 128
          invariant Written(p[..], was, from, at, 4, 128, i) && (p != v ==> v[..] == from)
        {
          var x := Column4(v, i);
          PutWord(v, p, at, 4, 128, i, x, was, from);
        }
      case 8 =>
        for i := 0 to 64
          invariant Written(p[..], was, from, at, 8, 64, i) && (p != v ==> v[..] == from)
        {
          var x := Column8(v, i);
          PutWord(v, p, at, 8, 64, i, x, was, from);
        }
      case 16 =>
        for i := 0 to 32
          invariant Written(p[..], was, from, at, 16, 32, i) && (p != v ==> v[..] == from)
        {
          var x := Column16(v, i);
          PutWord(v, p, at, 16, 32, i, x, was, from);
        }
    }
  }

  lemma NoneWritten(was: seq<Word>, from: seq<Word>, at: nat, frags: nat, stride: nat)
    requires frags * stride <= |from| && at + stride <= |was|
    ensures Written(was, was, from, at, frags, stride, 0)
  {
  }

  /** Whether the parity is right. */
  method VerifyParity(v: array<Word>, p: array<Word>, at: nat, frags: nat, stride: nat) returns (ok: bool)
    requires 1 <= frags && frags * stride <= v.Length && at + stride <= p.Length
    ensures ok <==> forall i :: 0 <= i < stride ==> p[at + i] == Xor(v[..], i, stride, frags)
  {
    hide Plus, Xor;
    for i := 0 to stride
      invariant forall k :: 0 <= k < i ==> p[at + k] == Xor(v[..], k, stride, frags)
    {
      var x := Column(v, i, frags, stride);
      Nothing(p[at + i], x);
      if Plus(p[at + i], x) != 0 {
        return false;
      }
    }
    return true;
  }

  /** Outside the fragment that starts at `start` nothing is lost. */
  ghost predicate Except(v: seq<Word>, data: seq<Word>, start: nat, stride: nat) {
    |v| == |data| && forall q :: 0 <= q < |data| && !(start <= q < start + stride) ==> v[q] == data[q]
  }

  /** The fragment that starts at `start` is the parity. */
  ghost predicate Replaced(v: seq<Word>, data: seq<Word>, start: nat, stride: nat, n: nat)
    requires n * stride <= |data|
  {
    start + stride <= |v| && forall k :: 0 <= k < stride ==> v[start + k] == Xor(data, k, stride, n)
  }

  /** The lost fragment `d` recovered in place: the parity is copied over it and the parity of what is
      there then is computed over that. */
  method Reconstruct(v: array<Word>, parity: array<Word>, at: nat, frags: nat, stride: nat, d: nat, ghost data: seq<Word>)
    requires v != parity && d < frags && frags * stride == |data| && at + stride <= parity.Length
    requires Replaced(parity[..], data, at, stride, frags) && Except(v[..], data, At(d, 0, stride), stride)
    modifies v
    ensures v[..] == data
  {
    hide Xor, Plus, Written;
    var start := d * stride;
    Inside(d, frags, stride);
    CopyWords(parity, at, v, start, stride);
    ghost var mixed := v[..];
    assert Except(mixed, data, start, stride) && Replaced(mixed, data, start, stride, frags);
    ComputeParity(v, v, start, frags, stride);
    Restored(v[..], mixed, data, frags, stride, d);
  }

  lemma Inside(d: nat, n: nat, stride: nat)
    requires d < n
    ensures d * stride == At(d, 0, stride) && d * stride + stride <= n * stride
  {
    assert (d + 1) * stride <= n * stride;
    assert (d + 1) * stride == d * stride + stride;
  }

  method CopyWords(from: array<Word>, at: nat, to: array<Word>, start: nat, n: nat)
    requires from != to && at + n <= from.Length && start + n <= to.Length
    modifies to
    ensures forall q :: 0 <= q < to.Length ==> to[q] == if start <= q < start + n then from[at + (q - start)] else old(to[q])
  {
    for i := 0 to n
      invariant forall q :: 0 <= q < to.Length ==> to[q] == if start <= q < start + i then from[at + (q - start)] else old(to[q])
    {
      to[start + i] := from[at + i];
    }
  }

  lemma Restored(now: seq<Word>, mixed: seq<Word>, data: seq<Word>, n: nat, stride: nat, d: nat)
    requires d < n && n * stride == |data| == |mixed| == |now| && At(d, 0, stride) + stride <= |data|
    requires Except(mixed, data, At(d, 0, stride), stride) && Replaced(mixed, data, At(d, 0, stride), stride, n)
    requires Written(now, mixed, mixed, At(d, 0, stride), n, stride, stride)
    ensures now == data
  {
    hide Xor, Plus;
    var start := At(d, 0, stride);
    forall q | 0 <= q < |data|
      ensures now[q] == data[q]
    {
      if start <= q < start + stride {
        var k := q - start;
        assert q == At(d, k, stride);
        assert mixed[start + k] == Xor(data, k, stride, n);
        Recovered(data, mixed, k, stride, n, d);
      }
    }
  }

  lemma Recovered(data: seq<Word>, mixed: seq<Word>, i: nat, stride: nat, n: nat, d: nat)
    requires i < stride && d < n && n * stride == |data| == |mixed| && At(d, i, stride) < |data|
    requires mixed[At(d, i, stride)] == Xor(data, i, stride, n) && Except(mixed, data, At(d, 0, stride), stride)
    ensures Xor(mixed, i, stride, n) == data[At(d, i, stride)]
  {
    hide Xor, Plus;
    var whole := data[At(d, i, stride) := Xor(data, i, stride, n)];
    forall k | 0 <= k < n && At(k, i, stride) < |whole|
      ensures mixed[At(k, i, stride)] == whole[At(k, i, stride)]
    {
      var q := At(k, i, stride);
      if At(d, 0, stride) <= q < At(d, 0, stride) + stride {
        assert q == At(d, q - At(d, 0, stride), stride);
        PlacesDiffer(k, i, d, q - At(d, 0, stride), stride);
      }
    }
    XorSame(whole, mixed, i, stride, n);
    LostWord(data, i, stride, n, d);
  }
}
