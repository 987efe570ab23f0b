/** The journal: a ring of data blocks and commit blocks, and how the last commit is found again. */
module JournalScan {
  import opened Ring

  datatype Slot = Data | Commit(sequence: nat)

  ghost function Commits(ring: seq<Slot>): nat {
    if ring == [] then 0 else Commits(ring[..|ring| - 1]) + One(ring[|ring| - 1])
  }

  ghost function One(s: Slot): nat {
    if s.Commit? then 1 else 0
  }

  /** Commit blocks before slot `p`. */
  ghost function Before(ring: seq<Slot>, p: nat): nat
    requires p <= |ring|
  {
    Commits(ring[..p])
  }

  lemma BeforeNext(ring: seq<Slot>, p: nat)
    requires p < |ring|
    ensures Before(ring, p + 1) == Before(ring, p) + One(ring[p])
  {
    assert ring[..p + 1][..p] == ring[..p];
  }

  lemma {:induction false} BeforeMono(ring: seq<Slot>, p: nat, q: nat)
    requires p <= q <= |ring|
    ensures Before(ring, p) <= Before(ring, q) <= Before(ring, p) + (q - p)
  {
    if p < q {
      BeforeMono(ring, p, q - 1);
      BeforeNext(ring, q - 1);
    }
  }

  lemma {:induction false} BeforeWritten(ring: seq<Slot>, h: nat, s: Slot, p: nat)
    requires h < |ring| && p <= |ring|
    ensures Before(ring[h := s], p) == Before(ring, p) + if p <= h then 0 else One(s) - One(ring[h])
  {
    if p > 0 {
      BeforeWritten(ring, h, s, p - 1);
      BeforeNext(ring, p - 1);
      BeforeNext(ring[h := s], p - 1);
    }
  }

  /** How many commit blocks of the ring are older than the one in slot `p`, if the next block to be
      written goes to slot `head`. */
  ghost function Rank(ring: seq<Slot>, head: nat, p: nat): int
    requires head < |ring| && p < |ring|
  {
    Before(ring, p) - Before(ring, head) + if p < head then Before(ring, |ring|) else 0
  }

  /** The commit blocks in the ring are the last ones written, in order. */
  ghost predicate Ranked(ring: seq<Slot>, head: nat, sequence: nat) {
    && head < |ring|
    && forall p :: 0 <= p < |ring| && ring[p].Commit? ==> ring[p].sequence == sequence - Before(ring, |ring|) + Rank(ring, head, p)
  }

  lemma RankedAt(ring: seq<Slot>, head: nat, sequence: nat, p: nat)
    requires Ranked(ring, head, sequence) && p < |ring| && ring[p].Commit?
    ensures ring[p].sequence == sequence - Before(ring, |ring|) + Rank(ring, head, p)
  {
  }

  function Step(head: nat, size: nat): nat {
    if head + 1 == size then 0 else head + 1
  }

  /** The next slot is the start of the ring if there is none: the ranks are the same. */
  lemma Turned(ring: seq<Slot>, head: nat, p: nat)
    requires head < |ring| && p < |ring|
    ensures Rank(ring, Step(head, |ring|), p)
         == Before(ring, p) - Before(ring, head + 1) + if p <= head then Before(ring, |ring|) else 0
  {
    assert ring[..0] == [];
  }

  lemma Written(ring: seq<Slot>, head: nat, sequence: nat, s: Slot)
    requires Ranked(ring, head, sequence) && (s.Commit? ==> s.sequence == sequence)
    ensures Ranked(ring[head := s], Step(head, |ring|), sequence + One(s))
  {
    hide Before, Rank;
    var now, next := ring[head := s], Step(head, |ring|);
    BeforeWritten(ring, head, s, |ring|);
    BeforeWritten(ring, head, s, head + 1);
    BeforeNext(ring, head);
    forall p | 0 <= p < |now| && now[p].Commit?
      ensures now[p].sequence == sequence + One(s) - Before(now, |now|) + Rank(now, next, p)
    {
      Turned(now, head, p);
      BeforeWritten(ring, head, s, p);
      if p != head {
        RankedAt(ring, head, sequence, p);
        RankIs(ring, head, p);
      }
    }
  }

  lemma RankIs(ring: seq<Slot>, head: nat, p: nat)
    requires head < |ring| && p < |ring|
    ensures Rank(ring, head, p) == Before(ring, p) - Before(ring, head) + if p < head then Before(ring, |ring|) else 0
  {
  }

  /** With no commit block between two heads the ranks are the same. */
  lemma HeadBack(ring: seq<Slot>, head: nat, sequence: nat)
    requires Ranked(ring, Step(head, |ring|), sequence) && head < |ring| && ring[head] == Data
    ensures Ranked(ring, head, sequence)
  {
    hide Before, Rank;
    BeforeNext(ring, head);
    forall p | 0 <= p < |ring| && ring[p].Commit?
      ensures ring[p].sequence == sequence - Before(ring, |ring|) + Rank(ring, head, p)
    {
      RankedAt(ring, Step(head, |ring|), sequence, p);
      Turned(ring, head, p);
      RankIs(ring, head, p);
    }
  }

  // Scanning

  /** The positions of all commit blocks, in order. */
  ghost predicate Listed(ring: seq<Slot>, positions: seq<nat>, n: nat) {
    && n <= |ring| && |positions| == Before(ring, n)
    && forall k :: 0 <= k < |positions| ==> positions[k] < n && ring[positions[k]].Commit? && Before(ring, positions[k]) == k
  }

  lemma ListedNext(ring: seq<Slot>, positions: seq<nat>, n: nat)
    requires Listed(ring, positions, n) && n < |ring|
    ensures Listed(ring, if ring[n].Commit? then positions + [n] else positions, n + 1)
  {
    hide Before;
    BeforeNext(ring, n);
  }

  /** The number of the newest commit block among them. */
  ghost function Newest(ring: seq<Slot>, head: nat): int
    requires head < |ring|
  {
    if Before(ring, head) > 0 then Before(ring, head) - 1 else Before(ring, |ring|) - 1
  }

  /** The sequence of the commit blocks, as they are found. */
  lemma SequenceAt(ring: seq<Slot>, head: nat, sequence: nat, positions: seq<nat>, k: nat)
    requires Ranked(ring, head, sequence) && Listed(ring, positions, |ring|) && k < |positions|
    ensures var n, m := Before(ring, |ring|), Before(ring, head);
      ring[positions[k]].sequence == sequence - n + k - m + if k < m then n else 0
  {
    hide Before, Rank;
    var p := positions[k];
    RankedAt(ring, head, sequence, p);
    RankIs(ring, head, p);
    if p < head {
      BeforeMono(ring, p + 1, head);
      BeforeNext(ring, p);
    } else {
      BeforeMono(ring, head, p);
    }
  }

  /** The sequence does not go on by one after the newest commit block, and only there. */
  lemma OneGap(ring: seq<Slot>, head: nat, sequence: nat, positions: seq<nat>, k: nat)
    requires Ranked(ring, head, sequence) && Listed(ring, positions, |ring|) && k < |positions|
    ensures var next := if k + 1 == |positions| then 0 else k + 1;
      ring[positions[next]].sequence != ring[positions[k]].sequence + 1 <==> k == Newest(ring, head)
    ensures k == Newest(ring, head) ==> ring[positions[k]].sequence == sequence - 1
  {
    hide Before, Rank;
    SequenceAt(ring, head, sequence, positions, k);
    SequenceAt(ring, head, sequence, positions, if k + 1 == |positions| then 0 else k + 1);
    BeforeMono(ring, head, |ring|);
  }

  /** Only one block has a given sequence number. */
  lemma OneCommit(ring: seq<Slot>, head: nat, sequence: nat, p: nat, q: nat)
    requires Ranked(ring, head, sequence) && p < q < |ring| && ring[p].Commit? && ring[q].Commit?
    ensures ring[p].sequence != ring[q].sequence
  {
    hide Before, Rank;
    RankedAt(ring, head, sequence, p);
    RankedAt(ring, head, sequence, q);
    RankIs(ring, head, p);
    RankIs(ring, head, q);
    BeforeNext(ring, p);
    BeforeMono(ring, p + 1, q);
    BeforeNext(ring, q);
    BeforeMono(ring, q + 1, |ring|);
    assert ring[..0] == [];
    NoneBefore(ring);
    BeforeMono(ring, 0, p);
    if p < head {
      BeforeMono(ring, p + 1, head);
    }
  }

  lemma NoneBefore(ring: seq<Slot>)
    ensures Before(ring, 0) == 0
  {
  }

  datatype Scan = Failed | Found(next: nat, sequence: nat)

  /** The sequence does not go on by one after the `k`th commit block. */
  ghost predicate Gap(ring: seq<Slot>, positions: seq<nat>, k: nat)
    requires k < |positions| && AllCommits(ring, positions)
  {
    ring[positions[if k + 1 == |positions| then 0 else k + 1]].sequence != ring[positions[k]].sequence + 1
  }

  ghost predicate AllCommits(ring: seq<Slot>, positions: seq<nat>) {
    forall i :: 0 <= i < |positions| ==> positions[i] < |ring| && ring[positions[i]].Commit?
  }

  lemma ListedCommits(ring: seq<Slot>, positions: seq<nat>)
    requires Listed(ring, positions, |ring|)
    ensures AllCommits(ring, positions)
  {
  }

  lemma {:induction false} Rising(ring: seq<Slot>, positions: seq<nat>, k: nat)
    requires AllCommits(ring, positions) && k < |positions| && forall i :: 0 <= i < k ==> !Gap(ring, positions, i)
    ensures ring[positions[k]].sequence == ring[positions[0]].sequence + k
  {
    if k > 0 {
      Rising(ring, positions, k - 1);
      assert !Gap(ring, positions, k - 1);
    }
  }

  /** Around a ring the sequence cannot always go on by one. */
  lemma SomeGap(ring: seq<Slot>, positions: seq<nat>)
    requires AllCommits(ring, positions) && positions != []
    ensures exists k :: 0 <= k < |positions| && Gap(ring, positions, k)
  {
    var n := |positions| - 1;
    if forall k :: 0 <= k < n ==> !Gap(ring, positions, k) {
      Rising(ring, positions, n);
      assert Gap(ring, positions, n);
    }
  }

  /** Reads the whole ring and looks for the commit block after which the sequence does not go on. There
      is always one, and the scan fails just if there are more. */
  method Replay(ring: seq<Slot>) returns (r: Scan, ghost positions: seq<nat>)
    requires exists p :: 0 <= p < |ring| && ring[p].Commit?
    ensures Listed(ring, positions, |ring|) && AllCommits(ring, positions)
    ensures r.Failed? <==> exists i, j :: 0 <= i < j < |positions| && Gap(ring, positions, i) && Gap(ring, positions, j)
    ensures forall k :: 0 <= k < |positions| && Gap(ring, positions, k) && r.Found? ==>
      r == Found(Step(positions[k], |ring|), ring[positions[k]].sequence + 1)
  {
    hide Listed, Before;
    var list := FindCommits(ring);
    positions := list;
    ListedCommits(ring, list);
    ghost var some :| 0 <= some < |ring| && ring[some].Commit?;
    Nonempty(ring, list, some);
    SomeGap(ring, list);
    var newest, i: nat := -1, 0;
    while i < |list|
      invariant i <= |list| && -1 <= newest < i
      invariant newest == -1 ==> forall k :: 0 <= k < i ==> !Gap(ring, list, k)
      invariant newest != -1 ==> Gap(ring, list, newest) && forall k :: 0 <= k < i && k != newest ==> !Gap(ring, list, k)
    {
      var next := if i + 1 == |list| then 0 else i + 1;
      if ring[list[next]].sequence != ring[list[i]].sequence + 1 {
        assert Gap(ring, list, i);
        if newest != -1 {
          return Failed, list;
        }
        newest := i;
      }
      i := i + 1;
    }
    var p := list[newest];
    r := Found(if p + 1 == |ring| then 0 else p + 1, ring[p].sequence + 1);
  }

  /** In a ring of commit blocks in order, wherever it was cut off, the scan finds the last one. */
  lemma FindsLast(ring: seq<Slot>, head: nat, sequence: nat, last: nat, positions: seq<nat>, r: Scan)
    requires Ranked(ring, head, sequence) && last < |ring| && ring[last].Commit? && ring[last].sequence + 1 == sequence
    requires Listed(ring, positions, |ring|) && AllCommits(ring, positions)
    requires r.Failed? ==> exists i, j :: 0 <= i < j < |positions| && Gap(ring, positions, i) && Gap(ring, positions, j)
    requires forall k :: 0 <= k < |positions| && Gap(ring, positions, k) && r.Found? ==>
      r == Found(Step(positions[k], |ring|), ring[positions[k]].sequence + 1)
    ensures r == Found(Step(last, |ring|), sequence)
  {
    hide Ranked, Listed, Before, Newest;
    RankedHead(ring, head, sequence);
    Nonempty(ring, positions, last);
    NewestListed(ring, head, positions);
    var newest := Newest(ring, head);
    forall k | 0 <= k < |positions|
      ensures Gap(ring, positions, k) <==> k == newest
    {
      OneGap(ring, head, sequence, positions, k);
    }
    OneGap(ring, head, sequence, positions, newest);
    SameCommit(ring, head, sequence, positions[newest], last);
  }

  method FindCommits(ring: seq<Slot>) returns (positions: seq<nat>)
    ensures Listed(ring, positions, |ring|)
  {
    hide Before;
    positions := [];
    NoneBefore(ring);
    for i := 0 to |ring|
      invariant Listed(ring, positions, i)
    {
      ListedNext(ring, positions, i);
      if ring[i].Commit? {
        positions := positions + [i];
      }
    }
  }

  lemma ListedAt(ring: seq<Slot>, positions: seq<nat>, k: nat)
    requires Listed(ring, positions, |ring|) && k < |positions|
    ensures positions[k] < |ring| && ring[positions[k]].Commit?
  {
  }

  lemma Nonempty(ring: seq<Slot>, positions: seq<nat>, last: nat)
    requires Listed(ring, positions, |ring|) && last < |ring| && ring[last].Commit?
    ensures positions != []
  {
    hide Before;
    BeforeNext(ring, last);
    BeforeMono(ring, last + 1, |ring|);
  }

  lemma NewestListed(ring: seq<Slot>, head: nat, positions: seq<nat>)
    requires Listed(ring, positions, |ring|) && head < |ring| && positions != []
    ensures 0 <= Newest(ring, head) < |positions|
  {
    hide Before;
    BeforeMono(ring, head, |ring|);
  }

  lemma SameCommit(ring: seq<Slot>, head: nat, sequence: nat, p: nat, q: nat)
    requires Ranked(ring, head, sequence) && p < |ring| && q < |ring| && ring[p].Commit? && ring[q].Commit?
    requires ring[p].sequence == ring[q].sequence
    ensures p == q
  {
    if p < q {
      OneCommit(ring, head, sequence, p, q);
    } else if q < p {
      OneCommit(ring, head, sequence, q, p);
    }
  }

  /** The slot that the block after the next `i` goes to. */
  function Ahead(last: nat, i: nat, size: nat): nat
    requires size > 0
  {
    (last + 1 + i) % size
  }

  /** The blocks written since the last commit block are data blocks. */
  ghost predicate AllData(ring: seq<Slot>, last: nat, pending: nat, size: nat) {
    size == |ring| > 0 && forall i :: 0 <= i < pending ==> ring[Ahead(last, i, size)] == Data
  }

  /** Two rings agree but for the `n` slots after `last`. */
  ghost predicate Elsewhere(was: seq<Slot>, ring: seq<Slot>, last: nat, n: nat, size: nat) {
    && size == |ring| == |was| > 0
    && forall p :: 0 <= p < size ==> ring[p] == was[p] || exists i :: 0 <= i < n && p == Ahead(last, i, size)
  }

  lemma NothingWritten(ring: seq<Slot>, last: nat, size: nat)
    requires size == |ring| > 0
    ensures Elsewhere(ring, ring, last, 0, size)
  {
  }

  lemma ElsewhereNext(was: seq<Slot>, ring: seq<Slot>, last: nat, n: nat, size: nat, s: Slot)
    requires Elsewhere(was, ring, last, n, size) && Ahead(last, n, size) < size
    ensures Elsewhere(was, ring[Ahead(last, n, size) := s], last, n + 1, size)
  {
    var now := ring[Ahead(last, n, size) := s];
    forall p | 0 <= p < size && now[p] != was[p]
      ensures exists i :: 0 <= i < n + 1 && p == Ahead(last, i, size)
    {
      if p == Ahead(last, n, size) {
        assert 0 <= n < n + 1;
      } else {
        assert ring[p] != was[p];
      }
    }
  }

  /** The commit block goes to none of the slots of its data. */
  lemma DataKept(ring: seq<Slot>, last: nat, n: nat, size: nat, s: Slot)
    requires AllData(ring, last, n, size) && n < size && Ahead(last, n, size) < size
    ensures AllData(ring[Ahead(last, n, size) := s], last, n, size)
  {
    forall i | 0 <= i < n
      ensures ring[Ahead(last, n, size) := s][Ahead(last, i, size)] == Data
    {
      if Ahead(last, i, size) == Ahead(last, n, size) {
        SameSlot(last + 1 + i, last + 1 + n, size);
      }
      assert ring[Ahead(last, i, size)] == Data;
    }
  }

  class Journal {
    const size: nat
    var ring: seq<Slot>
    var next: nat
    var sequence: nat
    /** Where the last commit block is, and how many data blocks have been written since. */
    ghost var last: nat
    ghost var pending: nat

    ghost predicate Valid()
      reads this
    {
      && 2 <= size == |ring| && Ranked(ring, next, sequence)
      && last < size && ring[last].Commit? && ring[last].sequence + 1 == sequence
      && pending < size && next == Ahead(last, pending, size) && AllData(ring, last, pending, size)
    }

    /** A fresh journal is full of commit blocks. */
    constructor (size: nat)
      requires size >= 2
      ensures Valid() && this.size == size && pending == 0 && sequence == size
    {
      this.size := size;
      ring := seq(size, i requires 0 <= i < size => Commit(i));
      next, sequence, last, pending := 0, size, size - 1, 0;
      new;
      FreshRanked(ring, size);
      AheadFirst(size - 1, size);
      NoData(ring, size - 1);
    }

    method NextBlock() returns (pos: nat)
      requires next < size
      modifies this`next
      ensures pos == old(next) && next == Step(old(next), size)
    {
      pos := next;
      next := next + 1;
      if next == size {
        next := 0;
      }
    }

    /** Writes a data block. The journal may be cut off after it. */
    method WriteData()
      requires Valid() && pending + 1 < size
      modifies this`ring, this`next, this`pending
      ensures Valid() && pending == old(pending) + 1 && last == old(last) && sequence == old(sequence)
      ensures old(next) == Ahead(last, old(pending), size) && ring == old(ring)[old(next) := Data]
    {
      hide Ranked, AllData, Ahead;
      Written(ring, next, sequence, Data);
      RankedHead(ring, next, sequence);
      AheadNext(last, pending, size);
      NotLast(last, pending, size);
      StillData(ring, last, pending, size);
      var pos := NextBlock();
      ring := ring[pos := Data];
      pending := pending + 1;
    }

    /** Writes a commit block, which completes the transaction. */
    method WriteCommit()
      requires Valid()
      modifies this`ring, this`next, this`sequence, this`last, this`pending
      ensures Valid() && pending == 0 && sequence == old(sequence) + 1
      ensures last == Ahead(old(last), old(pending), size) && ring == old(ring)[last := Commit(old(sequence))]
    {
      hide Ranked, AllData, Ahead;
      Written(ring, next, sequence, Commit(sequence));
      RankedHead(ring, next, sequence);
      AheadFirst(next, size);
      NoData(ring[next := Commit(sequence)], next);
      var pos := NextBlock();
      ring := ring[pos := Commit(sequence)];
      sequence := sequence + 1;
      last, pending := pos, 0;
    }

    /** A transaction of some data blocks: they go to the slots after the last commit block, and the new
        one after them. Nothing else is written. With no dirty block and no deferred allocation there is
        nothing to commit. */
    method CommitTransaction(blocks: nat, deferred: bool)
      requires Valid() && pending == 0 && blocks < size
      modifies this
      ensures Valid() && pending == 0 && sequence == old(sequence) + if blocks > 0 || deferred then 1 else 0
      ensures blocks == 0 && !deferred ==> ring == old(ring) && next == old(next) && last == old(last)
      ensures blocks > 0 || deferred ==>
        && last == Ahead(old(last), blocks, size) && ring[last] == Commit(old(sequence)) && AllData(ring, old(last), blocks, size)
        && Elsewhere(old(ring), ring, old(last), blocks + 1, size)
    {
      if blocks == 0 && !deferred {
        return;
      }
      hide Ranked, AllData, Elsewhere, Ahead;
      NothingWritten(ring, last, size);
      for i := 0 to blocks
        invariant Valid() && pending == i && sequence == old(sequence) && last == old(last)
        invariant Elsewhere(old(ring), ring, last, i, size)
      {
        InRing(last, i, size);
        ElsewhereNext(old(ring), ring, last, i, size, Data);
        WriteData();
      }
      InRing(last, blocks, size);
      ElsewhereNext(old(ring), ring, last, blocks, size, Commit(sequence));
      DataKept(ring, last, blocks, size, Commit(sequence));
      WriteCommit();
    }

    /** Starting again, wherever the journal was cut off: what has been written says where the last
        completed commit is and what comes next. */
    method Restart()
      requires Valid()
      modifies this`next, this`sequence, this`pending
      ensures Valid() && pending == 0 && last == old(last) && sequence == old(sequence) && next == Step(last, size)
    {
      hide Ranked, AllData, Ahead;
      var scan, positions := Replay(ring);
      FindsLast(ring, next, sequence, last, positions, scan);
      GoBack(ring, last, pending, size, sequence);
      AheadFirst(last, size);
      NoData(ring, last);
      next, sequence := scan.next, scan.sequence;
      pending := 0;
    }
  }

  lemma RankedHead(ring: seq<Slot>, head: nat, sequence: nat)
    requires Ranked(ring, head, sequence)
    ensures head < |ring|
  {
  }

  lemma {:induction false} FreshBefore(ring: seq<Slot>, p: nat)
    requires p <= |ring| && forall i :: 0 <= i < |ring| ==> ring[i].Commit?
    ensures Before(ring, p) == p
  {
    if p > 0 {
      FreshBefore(ring, p - 1);
      BeforeNext(ring, p - 1);
    }
  }

  lemma FreshRanked(ring: seq<Slot>, size: nat)
    requires size >= 2 && |ring| == size && forall i :: 0 <= i < size ==> ring[i] == Commit(i)
    ensures Ranked(ring, 0, size)
  {
    FreshBefore(ring, size);
    forall p | 0 <= p < size
      ensures Rank(ring, 0, p) == p
    {
      FreshBefore(ring, p);
    }
  }

  lemma NotLast(last: nat, pending: nat, size: nat)
    requires last < size && pending + 1 < size
    ensures Ahead(last, pending, size) != last
  {
    ModIs(last, 0, last, size);
    if (last + 1 + pending) % size == last {
      SameSlot(last, last + 1 + pending, size);
    }
  }

  lemma StillData(was: seq<Slot>, last: nat, pending: nat, size: nat)
    requires AllData(was, last, pending, size)
    ensures AllData(was[Ahead(last, pending, size) := Data], last, pending + 1, size)
  {
  }

  lemma NoData(ring: seq<Slot>, last: nat)
    requires ring != []
    ensures AllData(ring, last, 0, |ring|)
  {
  }

  lemma AheadNext(last: nat, pending: nat, size: nat)
    requires size >= 2
    ensures Ahead(last, pending + 1, size) == Step(Ahead(last, pending, size), size)
  {
    NextSlot(last + 1 + pending, size);
  }

  lemma AheadFirst(last: nat, size: nat)
    requires last < size && size >= 2
    ensures Ahead(last, 0, size) == Step(last, size)
  {
    NextSlot(last, size);
    ModIs(last, 0, last, size);
  }

  /** Data blocks of a transaction that was not completed do not count. */
  lemma {:induction false} GoBack(ring: seq<Slot>, last: nat, pending: nat, size: nat, sequence: nat)
    requires size >= 2 && AllData(ring, last, pending, size) && Ranked(ring, Ahead(last, pending, size), sequence)
    ensures Ranked(ring, Ahead(last, 0, size), sequence)
  {
    hide Ranked, Ahead;
    if pending > 0 {
      AheadNext(last, pending - 1, size);
      InRing(last, pending - 1, size);
      assert ring[Ahead(last, pending - 1, size)] == Data;
      HeadBack(ring, Ahead(last, pending - 1, size), sequence);
      GoBack(ring, last, pending - 1, size, sequence);
    }
  }

  lemma InRing(last: nat, i: nat, size: nat)
    requires size > 0
    ensures Ahead(last, i, size) < size
  {
  }
}
