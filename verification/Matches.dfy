/** Matches found in a target window, and the queue that resolves their overlaps. */
module Matches {
  import opened Bytes

  const MAX_MATCH_SPLIT := 18

  /** A COPY reads from the source segment or from earlier in the target window. */
  datatype Kind = Copy(addr: nat, fromSource: bool) | Run(b: byte) | Add

  /** `size` bytes of target at `pos`. */
  datatype Match = Match(kind: Kind, pos: nat, size: nat) {
    function End(): nat { pos + size }

    /** The match without its first `n` bytes. */
    function Dropped(n: nat): Match
      requires n <= size
    {
      Match(if kind.Copy? then kind.(addr := kind.addr + n) else kind, pos + n, size - n)
    }

    /** The match without its last `n` bytes. */
    function Shortened(n: nat): Match
      requires n <= size
    {
      this.(size := size - n)
    }
  }

  /** The instruction reproduces the target bytes it covers. */
  ghost predicate Correct(source: seq<byte>, target: seq<byte>, m: Match) {
    && m.End() <= |target|
    && match m.kind
       case Copy(addr, true) =>
         addr + m.size <= |source| && target[m.pos..m.End()] == source[addr..addr + m.size]
       case Copy(addr, false) =>
         addr < m.pos && target[m.pos..m.End()] == target[addr..addr + m.size]
       case Run(b) => forall k :: m.pos <= k < m.End() ==> target[k] == b
       case Add => true
  }

  /** `m` is `whole` with bytes cut off either end. */
  predicate Within(m: Match, whole: Match) {
    && whole.pos <= m.pos && m.End() <= whole.End()
    && m.kind == if whole.kind.Copy? then Copy(whole.kind.addr + (m.pos - whole.pos), whole.kind.fromSource)
                 else whole.kind
  }

  lemma Subslice(s: seq<byte>, lo: nat, hi: nat, a: nat, b: nat)
    requires lo + b <= hi <= |s| && a <= b
    ensures s[lo..hi][a..b] == s[lo + a..lo + b]
  {
    var t, u := s[lo..hi][a..b], s[lo + a..lo + b];
    assert |t| == |u| && forall k :: 0 <= k < |t| ==> t[k] == s[lo + a + k] && u[k] == s[lo + a + k];
  }

  lemma WithinCorrect(source: seq<byte>, target: seq<byte>, m: Match, whole: Match)
    requires Within(m, whole) && Correct(source, target, whole)
    ensures Correct(source, target, m)
  {
    if whole.kind.Copy? {
      var cut := m.pos - whole.pos;
      var from := if whole.kind.fromSource then source else target;
      var addr := whole.kind.addr;
      Subslice(target, whole.pos, whole.End(), cut, cut + m.size);
      Subslice(from, addr, addr + whole.size, cut, cut + m.size);
    }
  }

  /** Each match starts and ends after the one before it. */
  predicate Increasing(q: seq<Match>) {
    forall j, k :: 0 <= j < k < |q| ==> q[j].pos < q[k].pos && q[j].End() < q[k].End()
  }

  predicate LongEnough(q: seq<Match>) {
    forall j :: 0 <= j < |q| ==> q[j].size >= MIN_MATCH
  }

  /** Each match ends before the next begins. */
  predicate Disjoint(q: seq<Match>) {
    forall j :: 0 <= j < |q| - 1 ==> q[j].End() <= q[j + 1].pos
  }

  /** `m` is what is left of some original match. */
  ghost predicate HasOriginal(m: Match, originals: seq<Match>) {
    exists k :: 0 <= k < |originals| && Within(m, originals[k])
  }

  ghost predicate CutFrom(q: seq<Match>, originals: seq<Match>) {
    forall j :: 0 <= j < |q| ==> HasOriginal(q[j], originals)
  }

  lemma CutFromItself(q: seq<Match>)
    ensures CutFrom(q, q)
  {
    forall j | 0 <= j < |q|
      ensures HasOriginal(q[j], q)
    {
      assert Within(q[j], q[j]);
    }
  }

  lemma CutAgain(m: Match, cut: Match, originals: seq<Match>)
    requires HasOriginal(m, originals) && Within(cut, m)
    ensures HasOriginal(cut, originals)
  {
    var k :| 0 <= k < |originals| && Within(m, originals[k]);
    assert Within(cut, originals[k]);
  }

  /** Two overlapping matches that overlap almost entirely. */
  predicate AlmostSame(r1: Match, r2: Match)
    requires r1.pos < r2.pos && r1.End() < r2.End()
  {
    r2.End() - r1.pos < 2 * MIN_MATCH || r2.End() - r1.End() <= 2 || r2.pos - r1.pos <= 2
  }

  /** Where two overlapping matches are made to meet: at the end of the first or the start of the second
      if that match is shorter than an even share, which is at most 18; or else after that share. */
  function Meeting(r1: Match, r2: Match): nat
    requires r1.pos < r2.pos && r1.End() < r2.End()
  {
    var even := if r2.End() - r1.pos >= 36 then 18 else (r2.End() - r1.pos + 1) / 2;
    if even > r1.size then r1.End() else if even > r2.size || r1.pos + even < r2.pos then r2.pos else r1.pos + even
  }

  /** Shortens one or both of two overlapping matches. Nothing they covered is lost, they now
      abut, and neither falls below the least match length. */
  method SplitOverlap(first: Match, second: Match) returns (r1: Match, r2: Match)
    requires first.size >= MIN_MATCH && second.size >= MIN_MATCH
    requires first.pos < second.pos < first.End() < second.End() && !AlmostSame(first, second)
    ensures r1.pos == first.pos && r1.End() == r2.pos && r2.End() == second.End()
    ensures r1.size >= MIN_MATCH && r2.size >= MIN_MATCH
    ensures Within(r1, first) && Within(r2, second)
    ensures r2.pos <= first.End() && r2.pos == Meeting(first, second)
  {
    r1, r2 := first, second;
    var r1end: nat := r1.End();
    var gap: nat := r2.End() - r1.pos;
    var average: nat := gap / 2;
    var newsize: nat := if MAX_MATCH_SPLIT < gap - average then MAX_MATCH_SPLIT else gap - average;
    var adjust: nat;
    if newsize > r1.size {
      adjust := r1end - r2.pos;
    } else if newsize > r2.size {
      adjust := r1end - r2.pos;
      assert r1.size > adjust;
      r1 := r1.Shortened(adjust);
      adjust := 0;
    } else {
      adjust := r1.size - newsize;
      if r2.pos > r1end - adjust {
        adjust := adjust - (r2.pos - (r1end - adjust));
      }
      assert r1.size > adjust;
      r1 := r1.Shortened(adjust);
      assert r1.End() >= r2.pos;
      adjust := r1.End() - r2.pos;
    }
    assert r2.size > adjust;
    r2 := r2.Dropped(adjust);
  }

  function Without(q: seq<Match>, i: nat): seq<Match>
    requires i < |q|
  {
    q[..i] + q[i + 1..]
  }

  /** Nothing before index `i` overlaps its successor; from `i` on the queue still increases. */
  ghost predicate ClearUpto(q: seq<Match>, i: nat) {
    && (forall j :: 0 <= j < i && j + 1 < |q| ==> q[j].End() <= q[j + 1].pos)
    && (forall j, k :: i <= j < k < |q| ==> q[j].pos < q[k].pos && q[j].End() < q[k].End())
    && LongEnough(q)
  }

  lemma WithoutAt(q: seq<Match>, which: nat, j: nat)
    requires which < |q| && j < |q| - 1
    ensures |Without(q, which)| == |q| - 1
    ensures Without(q, which)[j] == q[if j < which then j else j + 1]
  {
  }

  lemma DropKeepsCut(q: seq<Match>, originals: seq<Match>, which: nat)
    requires CutFrom(q, originals) && which < |q|
    ensures CutFrom(Without(q, which), originals)
  {
    forall j | 0 <= j < |q| - 1
      ensures HasOriginal(Without(q, which)[j], originals)
    {
      WithoutAt(q, which, j);
    }
  }

  lemma DropKeepsClear(q: seq<Match>, r: seq<Match>, i: nat, which: nat)
    requires i + 1 < |q| && ClearUpto(q, i) && which in {i, i + 1} && |r| == |q| - 1
    requires forall j :: 0 <= j < |r| ==> r[j] == q[if j < which then j else j + 1]
    ensures forall j :: 0 <= j < i && j + 1 < |r| ==> r[j].End() <= r[j + 1].pos
  {
    forall j | 0 <= j < i && j + 1 < |r|
      ensures r[j].End() <= r[j + 1].pos
    {
      assert r[j] == q[j] && q[j].End() <= q[j + 1].pos;
      assert r[j + 1] == q[j + 1] || (r[j + 1] == q[j + 2] && j + 1 == i);
    }
  }

  lemma DropKeepsRising(q: seq<Match>, r: seq<Match>, i: nat, which: nat)
    requires i + 1 < |q| && ClearUpto(q, i) && which in {i, i + 1} && |r| == |q| - 1
    requires forall j :: 0 <= j < |r| ==> r[j] == q[if j < which then j else j + 1]
    ensures forall j, k :: i <= j < k < |r| ==> r[j].pos < r[k].pos && r[j].End() < r[k].End()
    ensures LongEnough(r)
  {
  }

  lemma DropKeeps(q: seq<Match>, i: nat, originals: seq<Match>, which: nat)
    requires i + 1 < |q| && ClearUpto(q, i) && CutFrom(q, originals) && which in {i, i + 1}
    ensures ClearUpto(Without(q, which), i) && CutFrom(Without(q, which), originals)
  {
    DropKeepsCut(q, originals, which);
    var r := Without(q, which);
    assert ClearUpto(r, i) by {
      hide CutFrom, LongEnough;
      DropKeepsClear(q, r, i, which);
      DropKeepsRising(q, r, i, which);
    }
  }

  /** Once `r2` is dropped for being almost the same as a longer `r1`, `r1` overlaps nothing. */
  lemma DropAdvances(q: seq<Match>, i: nat)
    requires i < |q| && ClearUpto(q, i)
    requires i + 1 < |q| ==> q[i].End() <= q[i + 1].pos
    ensures ClearUpto(q, i + 1)
  {
  }

  lemma SplitKeeps(q: seq<Match>, i: nat, originals: seq<Match>, r1: Match, r2: Match)
    requires i + 1 < |q| && ClearUpto(q, i) && CutFrom(q, originals)
    requires r1.pos == q[i].pos && r1.End() == r2.pos && r2.End() == q[i + 1].End()
    requires r1.size >= MIN_MATCH && r2.size >= MIN_MATCH && r2.pos <= q[i].End()
    requires Within(r1, q[i]) && Within(r2, q[i + 1])
    requires i + 2 < |q| ==> q[i + 2].pos > q[i].End() + 1
    ensures ClearUpto(q[i := r1][i + 1 := r2], i + 1) && CutFrom(q[i := r1][i + 1 := r2], originals)
  {
    hide CutFrom;
    SplitKeepsCut(q, i, originals, r1, r2);
    var r := q[i := r1][i + 1 := r2];
    assert forall j :: 0 <= j < |r| && j != i && j != i + 1 ==> r[j] == q[j];
    forall k | i + 1 < k < |r|
      ensures r2.pos < r[k].pos && r2.End() < r[k].End()
    {
      assert q[i + 2].pos <= q[k].pos;
    }
  }

  lemma SplitKeepsCut(q: seq<Match>, i: nat, originals: seq<Match>, r1: Match, r2: Match)
    requires i + 1 < |q| && CutFrom(q, originals) && Within(r1, q[i]) && Within(r2, q[i + 1])
    ensures CutFrom(q[i := r1][i + 1 := r2], originals)
  {
    CutAgain(q[i], r1, originals);
    CutAgain(q[i + 1], r2, originals);
  }

  lemma FrontPair(q: seq<Match>, i: nat)
    requires i + 1 < |q| && ClearUpto(q, i)
    ensures q[i].pos < q[i + 1].pos && q[i].End() < q[i + 1].End()
    ensures q[i].size >= MIN_MATCH && q[i + 1].size >= MIN_MATCH
  {
  }

  /** A match is dropped only if it overlaps another almost entirely that is no shorter, or lies between
      two others that nearly meet; other overlapping matches are cut so that they meet. */
  ghost predicate Settled(q: seq<Match>, i: nat, used: seq<Match>, next: nat) {
    && i + 1 < |q| && q[i].pos < q[i + 1].pos && q[i].End() < q[i + 1].End()
    && var r1, r2 := q[i], q[i + 1];
    if r1.End() <= r2.pos then used == q && next == i + 1
    else if i + 2 < |q| && q[i + 2].pos <= r1.End() + 1 then used == Without(q, i + 1) && next == i
    else if r2.End() - r1.pos < 8 || r2.End() - r1.End() <= 2 || r2.pos - r1.pos <= 2 then
      if r1.size < r2.size then used == Without(q, i) && next == i else used == Without(q, i + 1) && next == i + 1
    else
      && |used| == |q| && next == i + 1 && (forall j :: 0 <= j < |q| && j != i && j != i + 1 ==> used[j] == q[j])
      && Within(used[i], r1) && Within(used[i + 1], r2) && used[i].pos == r1.pos && used[i + 1].End() == r2.End()
      && used[i].End() == used[i + 1].pos == Meeting(r1, r2)
  }

  /** Settles the match at `i` against its successor. */
  method Settle(q: seq<Match>, i: nat, ghost originals: seq<Match>) returns (used: seq<Match>, next: nat)
    requires i + 1 < |q| && ClearUpto(q, i) && CutFrom(q, originals)
    ensures used != [] && next <= |used| && |used| - next < |q| - i
    ensures ClearUpto(used, next) && CutFrom(used, originals) && Settled(q, i, used, next)
  {
    hide ClearUpto, CutFrom;
    used, next := q, i;
    var r1, r2 := q[i], q[i + 1];
    FrontPair(q, i);
    if r1.End() <= r2.pos {
      DropAdvances(q, i);
      next := i + 1;
    } else if i + 2 < |q| && q[i + 2].pos <= r1.End() + 1 {
      DropKeeps(q, i, originals, i + 1);
      used := Without(q, i + 1);
    } else if AlmostSame(r1, r2) {
      if r1.size < r2.size {
        DropKeeps(q, i, originals, i);
        used := Without(q, i);
      } else {
        DropKeeps(q, i, originals, i + 1);
        used := Without(q, i + 1);
        DropAdvances(used, i);
        next := i + 1;
      }
    } else {
      var r1', r2' := SplitOverlap(r1, r2);
      SplitKeeps(q, i, originals, r1', r2');
      used := q[i := r1'][i + 1 := r2'];
      next := i + 1;
    }
  }

  /** Each state of the queue, and how far it has been settled, comes from the one before. */
  ghost predicate Passed(run: seq<(seq<Match>, nat)>) {
    run != [] && forall k :: 0 <= k && k + 1 < |run| ==> Settled(run[k].0, run[k].1, run[k + 1].0, run[k + 1].1)
  }

  lemma PassedNext(run: seq<(seq<Match>, nat)>, q: seq<Match>, i: nat)
    requires Passed(run) && Settled(run[|run| - 1].0, run[|run| - 1].1, q, i)
    ensures Passed(run + [(q, i)])
  {
    hide Settled;
    var more := run + [(q, i)];
    forall k | 0 <= k && k + 1 < |more|
      ensures Settled(more[k].0, more[k].1, more[k + 1].0, more[k + 1].1)
    {
      if k + 1 < |run| {
        assert more[k] == run[k] && more[k + 1] == run[k + 1];
      } else {
        assert more[k] == run[|run| - 1];
      }
    }
  }

  /** Walks the queue once, dropping or shortening matches until none overlaps the next. A queue
      without overlaps is left alone; a queue that was not empty does not become empty. */
  method Flush(queue: seq<Match>) returns (used: seq<Match>, ghost run: seq<(seq<Match>, nat)>)
    requires Increasing(queue) && LongEnough(queue)
    ensures Disjoint(used) && LongEnough(used) && CutFrom(used, queue)
    ensures Disjoint(queue) ==> used == queue
    ensures used == [] <==> queue == []
    ensures Passed(run) && run[0] == (queue, 0) && run[|run| - 1].0 == used && |used| <= run[|run| - 1].1 + 1
  {
    hide ClearUpto, CutFrom, LongEnough, Settled, Passed;
    used := queue;
    run := [(queue, 0)];
    PassedStart(queue);
    CutFromItself(queue);
    StartsClear(queue);
    var i: nat := 0;
    while i + 1 < |used|
      invariant used == [] <==> queue == []
      invariant i <= |used| && ClearUpto(used, i) && CutFrom(used, queue)
      invariant Disjoint(queue) ==> used == queue
      invariant run != [] && Passed(run) && run[0] == (queue, 0) && run[|run| - 1] == (used, i)
      decreases |used| - i
    {
      ghost var q, k := used, i;
      used, i := Settle(used, i, queue);
      ClearStays(q, k, used, i);
      PassedNext(run, used, i);
      run := run + [(used, i)];
    }
    EndsDisjoint(used, i);
  }

  lemma PassedStart(queue: seq<Match>)
    ensures Passed([(queue, 0)])
  {
  }

  lemma ClearStays(q: seq<Match>, i: nat, used: seq<Match>, next: nat)
    requires Settled(q, i, used, next)
    ensures Disjoint(q) ==> used == q
  {
  }

  lemma StartsClear(q: seq<Match>)
    requires Increasing(q) && LongEnough(q)
    ensures ClearUpto(q, 0)
  {
  }

  lemma EndsDisjoint(q: seq<Match>, i: nat)
    requires ClearUpto(q, i) && |q| <= i + 1
    ensures Disjoint(q) && LongEnough(q)
  {
  }
}
