/** Finding the last block written in a ring of log blocks, one of which may be torn. */
module DirtyScan {
  import opened DirtyStream
  import opened Ring

  /** One block of the log: its place in the sequence of all blocks ever written, where the entries
      still of use begin, and its own entries. */
  datatype Block = Block(sequence: nat, oldestBlock: nat, oldestEntry: nat, entries: seq<LogEntry>)

  /** A block as it is found: its checksum says whether it was written as a whole. */
  datatype Slot = Intact(block: Block) | Torn

  datatype Scan = Failed | Found(newest: nat, scribbled: int)

  /** The sequence number that slot `p` has if block `n` is the last one written whole. */
  function Expected(n: nat, size: nat, p: nat): int
    requires p < size
  {
    var w := (n + 1) % size;
    n + 1 - w + p - if p < w then 0 else size
  }

  /** Blocks are written in order, around the ring; only the write after block `n` may be torn. */
  ghost predicate InOrder(ring: seq<Slot>, n: nat, torn: bool) {
    && 2 <= |ring| <= n + 1
    && forall p :: 0 <= p < |ring| ==>
      if torn && p == (n + 1) % |ring| then ring[p] == Torn
      else ring[p].Intact? && ring[p].block.sequence == Expected(n, |ring|, p)
  }

  /** The last block written whole is in slot `newest`, and the sequence goes back from there around the
      ring; the slot after it may be the only one torn. */
  ghost predicate Coherent(ring: seq<Slot>, newest: int, scribbled: int) {
    && 0 <= newest < |ring| && ring[newest].Intact?
    && (scribbled == -1 || scribbled == if newest + 1 == |ring| then 0 else newest + 1)
    && forall p :: 0 <= p < |ring| ==> if p == scribbled then ring[p] == Torn else ring[p].Intact? && Number(ring, p) == Back(ring, newest, p)
  }

  ghost function Number(ring: seq<Slot>, p: int): int
    requires 0 <= p < |ring|
  {
    if ring[p].Intact? then ring[p].block.sequence else 0
  }

  ghost function Back(ring: seq<Slot>, newest: int, p: int): int
    requires 0 <= newest < |ring|
  {
    Number(ring, newest) + p - newest - if p > newest then |ring| else 0
  }

  lemma OrderCoherent(ring: seq<Slot>, n: nat, torn: bool)
    requires InOrder(ring, n, torn)
    ensures Coherent(ring, n % |ring|, if torn then (n + 1) % |ring| else -1)
  {
    LastSlot(n, |ring|);
    NextSlot(n, |ring|);
  }

  /** Only one slot can be the newest. */
  lemma OneNewest(ring: seq<Slot>, newest: int, scribbled: int, a: int, b: int)
    requires Coherent(ring, newest, scribbled) && Coherent(ring, a, b)
    ensures a == newest && b == scribbled
  {
    assert b != -1 ==> ring[b] == Torn;
    assert scribbled != -1 ==> ring[scribbled] == Torn;
    assert ring[a].Intact? && Number(ring, a) == Back(ring, newest, a);
    assert ring[newest].Intact? && Number(ring, newest) == Back(ring, a, newest);
  }

  /** What the scan knows after `i` slots: `sequence` is the number that slot `i - 1` has or should have. */
  ghost predicate Scanned(ring: seq<Slot>, i: int, started: bool, sequence: int, scribbled: int, newest: int) {
    && 0 <= i <= |ring| && -1 <= scribbled < i && (scribbled >= 0 ==> ring[scribbled] == Torn)
    && (forall p :: 0 <= p < i && p != scribbled ==> ring[p].Intact?)
    && (started <==> i > 1 || (i == 1 && scribbled != 0))
    && -1 <= newest && (newest >= 0 ==> newest < i - 1 && ring[newest].Intact? && scribbled in {-1, newest + 1})
    && (newest >= 0 && scribbled >= 0 ==> scribbled < i - 1)
    && (started ==> forall p :: 0 <= p < i && p != scribbled ==>
          Number(ring, p) == sequence - (i - 1 - p) + if p <= newest then |ring| else 0)
  }

  /** A drop in the sequence comes right after the newest block. */
  lemma DropAt(ring: seq<Slot>, a: int, b: int, p: int, q: int)
    requires Coherent(ring, a, b) && 0 <= p < q < |ring| && ring[p].Intact? && ring[q].Intact? && Number(ring, q) != Number(ring, p) + (q - p)
    ensures p <= a < q && Number(ring, q) == Number(ring, p) + (q - p) - |ring|
  {
  }

  lemma NoDrop(ring: seq<Slot>, a: int, b: int, p: int, q: int)
    requires Coherent(ring, a, b) && 0 <= p < q < |ring| && ring[p].Intact? && ring[q].Intact? && Number(ring, q) == Number(ring, p) + (q - p)
    ensures !(p <= a < q)
  {
  }

  lemma TwoTorn(ring: seq<Slot>, p: int, q: int)
    requires 0 <= p < q < |ring| && ring[p] == Torn && ring[q] == Torn
    ensures forall a, b :: !Coherent(ring, a, b)
  {
  }

  /** A torn block away from the drop, or two drops, or a jump: no ring like that was ever written. */
  lemma Incoherent(ring: seq<Slot>, i: int, started: bool, sequence: int, scribbled: int, newest: int)
    requires Scanned(ring, i, started, sequence, scribbled, newest) && i < |ring|
    requires
      || (ring[i] == Torn && (scribbled != -1 || (newest != -1 && newest != i - 1)))
      || (ring[i].Intact? && started && Number(ring, i) != sequence + 1 &&
            (Number(ring, i) != sequence + 1 - |ring| || newest != -1 || (scribbled != -1 && scribbled != i - 1)))
    ensures forall a, b :: !Coherent(ring, a, b)
  {
    if ring[i] == Torn && scribbled != -1 {
      TwoTorn(ring, scribbled, i);
    } else {
      forall a, b
        ensures !Coherent(ring, a, b)
      {
        Contradicted(ring, i, started, sequence, scribbled, newest, a, b);
      }
    }
  }

  lemma Contradicted(ring: seq<Slot>, i: int, started: bool, sequence: int, scribbled: int, newest: int, a: int, b: int)
    requires Scanned(ring, i, started, sequence, scribbled, newest) && i < |ring|
    requires
      || (ring[i] == Torn && scribbled == -1 && newest != -1 && newest != i - 1)
      || (ring[i].Intact? && started && Number(ring, i) != sequence + 1 &&
            (Number(ring, i) != sequence + 1 - |ring| || newest != -1 || (scribbled != -1 && scribbled != i - 1)))
    ensures !Coherent(ring, a, b)
  {
    if Coherent(ring, a, b) {
      if ring[i] == Torn {
        DropAt(ring, a, b, newest, newest + 1);
      } else {
        var last := if scribbled == i - 1 then i - 2 else i - 1;
        assert Number(ring, last) == sequence - (i - 1 - last);
        DropAt(ring, a, b, last, i);
        if newest != -1 {
          var after := if scribbled == newest + 1 then newest + 2 else newest + 1;
          DropAt(ring, a, b, newest, after);
        }
      }
    }
  }

  lemma AtEnd(ring: seq<Slot>, started: bool, sequence: int, scribbled: int, newest: int)
    requires Scanned(ring, |ring|, started, sequence, scribbled, newest) && |ring| >= 2
    ensures newest != -1 ==> Coherent(ring, newest, scribbled)
    ensures newest == -1 && (scribbled == -1 || scribbled == 0) ==> Coherent(ring, |ring| - 1, scribbled)
    ensures newest == -1 && scribbled == |ring| - 1 ==> Coherent(ring, |ring| - 2, scribbled)
    ensures newest == -1 && 0 < scribbled < |ring| - 1 ==> forall a, b :: !Coherent(ring, a, b)
  {
    if newest == -1 && 0 < scribbled < |ring| - 1 {
      forall a, b
        ensures !Coherent(ring, a, b)
      {
        if Coherent(ring, a, b) {
          assert b == scribbled;
          NoDrop(ring, a, b, scribbled - 1, scribbled + 1);
        }
      }
    }
  }

  /** Scans the ring for the one place where the sequence drops. It is found just if the ring is what
      writing in order, with at most the last block torn, leaves. */
  method FindNewest(ring: seq<Slot>) returns (r: Scan)
    requires |ring| >= 2
    ensures r.Found? ==> Coherent(ring, r.newest, r.scribbled)
    ensures forall a: nat, b :: Coherent(ring, a, b) ==> r == Found(a, b)
  {
    hide Coherent;
    var size := |ring|;
    var started, sequence: int, scribbled, newest := false, 0, -1, -1;
    var i: int := 0;
    while i < size
      invariant Scanned(ring, i, started, sequence, scribbled, newest)
    {
      if ring[i].Torn? {
        if scribbled != -1 || (newest != -1 && newest != i - 1) {
          Incoherent(ring, i, started, sequence, scribbled, newest);
          return Failed;
        }
        scribbled := i;
        if started {
          sequence := sequence + 1;
        }
      } else {
        var block := ring[i].block;
        if started && block.sequence != sequence + 1 {
          if block.sequence != sequence + 1 - size || newest != -1 {
            Incoherent(ring, i, started, sequence, scribbled, newest);
            return Failed;
          }
          if scribbled == -1 {
            newest := i - 1;
          } else {
            if scribbled != i - 1 {
              Incoherent(ring, i, started, sequence, scribbled, newest);
              return Failed;
            }
            newest := i - 2;
          }
        }
        started, sequence := true, block.sequence;
      }
      i := i + 1;
    }
    AtEnd(ring, started, sequence, scribbled, newest);
    if newest == -1 {
      if scribbled == -1 || scribbled == 0 {
        newest := size - 1;
      } else {
        if scribbled != size - 1 {
          return Failed;
        }
        newest := size - 2;
      }
    }
    r := Found(newest, scribbled);
    forall a: nat, b | Coherent(ring, a, b)
      ensures r == Found(a, b)
    {
      OneNewest(ring, r.newest, r.scribbled, a, b);
    }
  }
}
