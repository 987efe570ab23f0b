/** The log of regions that may be out of sync, kept in a ring of blocks. */
module DirtyLog {
  import opened DirtyStream
  import opened DirtyScan
  import opened Ring

  /** A region in use: how often, and where the log says so. */
  datatype Region = Region(count: nat, block: nat, entry: nat)

  // The log as one stream

  ghost function Flat(blocks: seq<Block>): seq<LogEntry> {
    if blocks == [] then [] else Flat(blocks[..|blocks| - 1]) + blocks[|blocks| - 1].entries
  }

  ghost function Offset(blocks: seq<Block>, q: nat): nat
    requires q <= |blocks|
  {
    |Flat(blocks[..q])|
  }

  lemma {:induction false} FlatPrefix(blocks: seq<Block>, q: nat)
    requires q <= |blocks|
    ensures Offset(blocks, q) <= |Flat(blocks)| && Flat(blocks)[..Offset(blocks, q)] == Flat(blocks[..q])
  {
    if q == |blocks| {
      assert blocks[..q] == blocks;
    } else {
      var n := |blocks| - 1;
      FlatPrefix(blocks[..n], q);
      assert blocks[..n][..q] == blocks[..q];
    }
  }

  lemma OffsetNext(blocks: seq<Block>, q: nat)
    requires q < |blocks|
    ensures Flat(blocks[..q + 1]) == Flat(blocks[..q]) + blocks[q].entries
    ensures Offset(blocks, q + 1) == Offset(blocks, q) + |blocks[q].entries| <= |Flat(blocks)|
    ensures Flat(blocks)[Offset(blocks, q)..Offset(blocks, q + 1)] == blocks[q].entries
  {
    assert blocks[..q + 1][..q] == blocks[..q];
    FlatPrefix(blocks, q + 1);
    FlatPrefix(blocks, q);
    var a, b := Flat(blocks[..q]), Flat(blocks[..q + 1]);
    assert b[|a|..] == blocks[q].entries;
  }

  lemma OffsetMono(blocks: seq<Block>, p: nat, q: nat)
    requires p <= q <= |blocks|
    ensures Offset(blocks, p) <= Offset(blocks, q)
  {
    FlatPrefix(blocks[..q], p);
    assert blocks[..q][..p] == blocks[..p];
  }

  lemma EntryIn(blocks: seq<Block>, q: nat, e: nat)
    requires q < |blocks| && e < |blocks[q].entries|
    ensures Offset(blocks, q) + e < |Flat(blocks)| && Flat(blocks)[Offset(blocks, q) + e] == blocks[q].entries[e]
  {
    OffsetNext(blocks, q);
    var o := Offset(blocks, q);
    assert Flat(blocks)[o..o + |blocks[q].entries|][e] == Flat(blocks)[o + e];
  }

  /** Two places in the log are the same place in the stream only if they are the same. */
  lemma PlacesDiffer(blocks: seq<Block>, p: nat, d: nat, q: nat, e: nat)
    requires p < |blocks| && d < |blocks[p].entries| && q < |blocks| && e < |blocks[q].entries|
    requires Offset(blocks, p) + d == Offset(blocks, q) + e
    ensures p == q && d == e
  {
    if p < q {
      OffsetNext(blocks, p);
      OffsetMono(blocks, p + 1, q);
    } else if q < p {
      OffsetNext(blocks, q);
      OffsetMono(blocks, q + 1, p);
    }
  }

  lemma FlatAppend(blocks: seq<Block>, last: Block, e: LogEntry)
    ensures Flat(blocks + [last.(entries := last.entries + [e])]) == Flat(blocks + [last]) + [e]
  {
    var a, b := blocks + [last], blocks + [last.(entries := last.entries + [e])];
    assert a[..|a| - 1] == blocks && b[..|b| - 1] == blocks;
    assert Flat(blocks) + (last.entries + [e]) == Flat(blocks) + last.entries + [e];
  }

  lemma FlatEmpty(blocks: seq<Block>, last: Block)
    requires last.entries == []
    ensures Flat(blocks + [last]) == Flat(blocks)
  {
    assert (blocks + [last])[..|blocks|] == blocks;
  }

  /** Offsets depend only on the blocks before. */
  lemma OffsetSame(a: seq<Block>, b: seq<Block>, q: nat)
    requires q <= |a| && q <= |b| && a[..q] == b[..q]
    ensures Offset(a, q) == Offset(b, q)
  {
  }

  // What the server remembers about the log

  /** Where each region was last said to be dirty. */
  ghost function Where(all: seq<Block>, since: map<nat, nat>, regions: map<nat, Region>): map<nat, nat>
    requires forall r :: r in regions ==> r in since && since[r] <= |all|
  {
    map r | r in regions :: Offset(all, since[r]) + regions[r].entry
  }

  ghost predicate Placed(all: seq<Block>, oldest: nat, q: nat, region: Region, size: nat) {
    && oldest <= q < |all| && region.count > 0 && size > 0
    && region.block == q % size && region.entry < |all[q].entries|
  }

  /** From the oldest entry still of use on, the log tells exactly which regions are held. */
  ghost predicate Tracks(hist: seq<Block>, newest: Block, oldest: nat, since: map<nat, nat>, regions: map<nat, Region>, size: nat) {
    var all := hist + [newest];
    && size >= 2 && oldest <= |hist| < oldest + size
    && newest.oldestBlock == oldest % size && newest.oldestEntry <= |all[oldest].entries|
    && since.Keys == regions.Keys && (forall r :: r in regions ==> Placed(all, oldest, since[r], regions[r], size))
    && Tells(Flat(all), Offset(all, oldest) + newest.oldestEntry, Where(all, since, regions))
  }

  lemma WhereSame(hist: seq<Block>, a: Block, b: Block, since: map<nat, nat>, regions: map<nat, Region>, q: nat)
    requires forall r :: r in regions ==> r in since && since[r] <= |hist|
    requires q <= |hist|
    ensures Where(hist + [a], since, regions) == Where(hist + [b], since, regions)
    ensures Offset(hist + [a], q) == Offset(hist + [b], q)
  {
    hide Offset;
    var all, now := hist + [a], hist + [b];
    PrefixSame(hist, a, b, q);
    forall r | r in regions
      ensures Offset(all, since[r]) == Offset(now, since[r])
    {
      PrefixSame(hist, a, b, since[r]);
    }
  }

  lemma PrefixSame(hist: seq<Block>, a: Block, b: Block, q: nat)
    requires q <= |hist|
    ensures Offset(hist + [a], q) == Offset(hist + [b], q)
  {
    assert (hist + [a])[..q] == (hist + [b])[..q];
  }

  lemma WhereEnd(hist: seq<Block>, newest: Block)
    ensures Offset(hist + [newest], |hist|) + |newest.entries| == |Flat(hist + [newest])|
  {
    OffsetNext(hist + [newest], |hist|);
    assert (hist + [newest])[..|hist| + 1] == hist + [newest];
  }

  function Logged(b: Block, e: LogEntry): Block {
    b.(entries := b.entries + [e])
  }

  lemma PlacedGrows(hist: seq<Block>, newest: Block, e: LogEntry, oldest: nat, q: nat, region: Region, size: nat)
    requires Placed(hist + [newest], oldest, q, region, size)
    ensures Placed(hist + [Logged(newest, e)], oldest, q, region, size)
  {
  }

  lemma TracksDirty(hist: seq<Block>, newest: Block, oldest: nat, since: map<nat, nat>, regions: map<nat, Region>, size: nat, r: nat, count: nat)
    requires Tracks(hist, newest, oldest, since, regions, size) && count > 0
    ensures Tracks(hist, Logged(newest, Dirty(r)), oldest, since[r := |hist|], regions[r := Region(count, |hist| % size, |newest.entries|)], size)
  {
    hide Tells, Flat, Placed, Offset, Where;
    var now, since', regions' := Logged(newest, Dirty(r)), since[r := |hist|], regions[r := Region(count, |hist| % size, |newest.entries|)];
    var all := hist + [newest];
    FlatAppend(hist, newest, Dirty(r));
    PlacedBounds(all, oldest, since, regions, size);
    PrefixSame(hist, newest, now, oldest);
    TellsDirty(Flat(all), Offset(all, oldest) + newest.oldestEntry, Where(all, since, regions), r);
    PlacedDirty(hist, newest, oldest, since, regions, size, r, since', regions');
    WhereDirty(hist, newest, since, regions, r, regions'[r]);
  }

  /** Every region is still placed, the new one in the newest block. */
  lemma PlacedDirty(hist: seq<Block>, newest: Block, oldest: nat, since: map<nat, nat>, regions: map<nat, Region>, size: nat, r: nat,
                    since': map<nat, nat>, regions': map<nat, Region>)
    requires since.Keys == regions.Keys && oldest <= |hist| && size > 0 && r in regions'
    requires forall s :: s in regions ==> Placed(hist + [newest], oldest, since[s], regions[s], size)
    requires since' == since[r := |hist|] && regions' == regions[r := regions'[r]]
    requires regions'[r].count > 0 && regions'[r].block == |hist| % size && regions'[r].entry == |newest.entries|
    ensures since'.Keys == regions'.Keys
    ensures forall s :: s in regions' ==> Placed(hist + [Logged(newest, Dirty(r))], oldest, since'[s], regions'[s], size)
  {
    hide Placed;
    forall s | s in regions'
      ensures Placed(hist + [Logged(newest, Dirty(r))], oldest, since'[s], regions'[s], size)
    {
      if s == r {
        PlacedNow(hist, Logged(newest, Dirty(r)), oldest, regions'[r], size);
      } else {
        PlacedGrows(hist, newest, Dirty(r), oldest, since[s], regions[s], size);
      }
    }
  }

  /** The region's place is the end of the log as it was, and the others keep theirs. */
  lemma WhereDirty(hist: seq<Block>, newest: Block, since: map<nat, nat>, regions: map<nat, Region>, r: nat, region: Region)
    requires forall s :: s in regions ==> s in since && since[s] <= |hist|
    requires region.entry == |newest.entries|
    ensures Where(hist + [Logged(newest, Dirty(r))], since[r := |hist|], regions[r := region])
         == Where(hist + [newest], since, regions)[r := |Flat(hist + [newest])|]
  {
    hide Flat, Offset;
    WhereSame(hist, newest, Logged(newest, Dirty(r)), since, regions, |hist|);
    WhereEnd(hist, newest);
  }

  lemma PlacedNow(hist: seq<Block>, now: Block, oldest: nat, region: Region, size: nat)
    requires oldest <= |hist| && size > 0 && region.count > 0 && region.block == |hist| % size && region.entry < |now.entries|
    ensures Placed(hist + [now], oldest, |hist|, region, size)
  {
  }

  lemma PlacedBounds(all: seq<Block>, oldest: nat, since: map<nat, nat>, regions: map<nat, Region>, size: nat)
    requires since.Keys == regions.Keys && forall r :: r in regions ==> Placed(all, oldest, since[r], regions[r], size)
    ensures forall r :: r in regions ==> r in since && oldest <= since[r] < |all|
  {
  }

  lemma TracksClean(hist: seq<Block>, newest: Block, oldest: nat, since: map<nat, nat>, regions: map<nat, Region>, size: nat, r: nat)
    requires Tracks(hist, newest, oldest, since, regions, size)
    ensures Tracks(hist, Logged(newest, Clean(r)), oldest, since - {r}, regions - {r}, size)
  {
    hide Tells, Flat, Placed, Offset;
    var now, since', regions' := Logged(newest, Clean(r)), since - {r}, regions - {r};
    var all, all' := hist + [newest], hist + [now];
    FlatAppend(hist, newest, Clean(r));
    PlacedBounds(all, oldest, since, regions, size);
    WhereSame(hist, newest, now, since, regions, oldest);
    TellsClean(Flat(all), Offset(all, oldest) + newest.oldestEntry, Where(all, since, regions), r);
    forall s | s in regions'
      ensures Placed(all', oldest, since'[s], regions'[s], size)
    {
      PlacedGrows(hist, newest, Clean(r), oldest, since[s], regions[s], size);
    }
    PlacedBounds(all', oldest, since', regions', size);
    assert Where(all', since', regions') == Where(all, since, regions) - {r};
  }

  /** A count changes. */
  lemma TracksCount(hist: seq<Block>, newest: Block, oldest: nat, since: map<nat, nat>, regions: map<nat, Region>, size: nat, r: nat, count: nat)
    requires Tracks(hist, newest, oldest, since, regions, size) && r in regions && count > 0
    ensures Tracks(hist, newest, oldest, since, regions[r := regions[r].(count := count)], size)
  {
    hide Tells, Flat, Offset;
    var all, regions' := hist + [newest], regions[r := regions[r].(count := count)];
    assert since.Keys == regions'.Keys;
    assert Where(all, since, regions') == Where(all, since, regions);
  }

  lemma FlatSame(hist: seq<Block>, a: Block, b: Block)
    requires a.entries == b.entries
    ensures Flat(hist + [a]) == Flat(hist + [b])
  {
    assert (hist + [a])[..|hist|] == hist && (hist + [b])[..|hist|] == hist;
  }

  /** The region's entry is the oldest one just if the block and entry numbers agree. */
  lemma OldestEntry(hist: seq<Block>, newest: Block, oldest: nat, since: map<nat, nat>, regions: map<nat, Region>, size: nat, r: nat)
    requires Tracks(hist, newest, oldest, since, regions, size) && r in regions
    requires var all := hist + [newest]; newest.oldestEntry < |all[oldest].entries|
    ensures var all := hist + [newest];
      Where(all, since, regions)[r] == Offset(all, oldest) + newest.oldestEntry
      <==> regions[r].block == newest.oldestBlock && regions[r].entry == newest.oldestEntry
  {
    hide Tells, Flat, Offset;
    var all, q := hist + [newest], since[r];
    assert Placed(all, oldest, q, regions[r], size);
    if Offset(all, q) + regions[r].entry == Offset(all, oldest) + newest.oldestEntry {
      PlacesDiffer(all, q, regions[r].entry, oldest, newest.oldestEntry);
    }
    if q % size == oldest % size {
      SameSlot(oldest, q, size);
    }
  }

  /** The oldest entry is passed over. */
  lemma TracksDrop(hist: seq<Block>, newest: Block, oldest: nat, since: map<nat, nat>, regions: map<nat, Region>, size: nat)
    requires Tracks(hist, newest, oldest, since, regions, size)
    requires var all := hist + [newest];
      && newest.oldestEntry < |all[oldest].entries|
      && var e := all[oldest].entries[newest.oldestEntry];
      e.Dirty? && e.region in regions ==> regions[e.region].block != newest.oldestBlock || regions[e.region].entry != newest.oldestEntry
    ensures Tracks(hist, newest.(oldestEntry := newest.oldestEntry + 1), oldest, since, regions, size)
  {
    hide Tells, Flat, Offset, Placed;
    var all, now := hist + [newest], newest.(oldestEntry := newest.oldestEntry + 1);
    var all' := hist + [now];
    var e := all[oldest].entries[newest.oldestEntry];
    EntryIn(all, oldest, newest.oldestEntry);
    PlacedBounds(all, oldest, since, regions, size);
    if e.Dirty? && e.region in regions {
      OldestEntry(hist, newest, oldest, since, regions, size, e.region);
    }
    TellsForget(Flat(all), Offset(all, oldest) + newest.oldestEntry, Where(all, since, regions));
    FlatSame(hist, newest, now);
    WhereSame(hist, newest, now, since, regions, oldest);
    PlacedSame(hist, newest, now, oldest, since, regions, size);
  }

  lemma PlacedSame(hist: seq<Block>, a: Block, b: Block, oldest: nat, since: map<nat, nat>, regions: map<nat, Region>, size: nat)
    requires a.entries == b.entries && since.Keys == regions.Keys
    requires forall r :: r in regions ==> Placed(hist + [a], oldest, since[r], regions[r], size)
    ensures forall r :: r in regions ==> Placed(hist + [b], oldest, since[r], regions[r], size)
  {
    forall r | r in regions
      ensures Placed(hist + [b], oldest, since[r], regions[r], size)
    {
      assert Placed(hist + [a], oldest, since[r], regions[r], size);
    }
  }

  /** The oldest entry is written again at the end before it is passed over. */
  lemma TracksKeep(hist: seq<Block>, newest: Block, oldest: nat, since: map<nat, nat>, regions: map<nat, Region>, size: nat)
    requires Tracks(hist, newest, oldest, since, regions, size) && oldest < |hist|
    requires var all := hist + [newest];
      && newest.oldestEntry < |all[oldest].entries|
      && var e := all[oldest].entries[newest.oldestEntry]; e.Dirty? && e.region in regions
    ensures var r := (hist + [newest])[oldest].entries[newest.oldestEntry].region;
      Tracks(hist, Logged(newest, Dirty(r)).(oldestEntry := newest.oldestEntry + 1), oldest, since[r := |hist|],
             regions[r := Region(regions[r].count, |hist| % size, |newest.entries|)], size)
  {
    hide Tells, Flat, Offset, Where;
    var r := (hist + [newest])[oldest].entries[newest.oldestEntry].region;
    var now, since', regions' := Logged(newest, Dirty(r)), since[r := |hist|], regions[r := Region(regions[r].count, |hist| % size, |newest.entries|)];
    assert Placed(hist + [newest], oldest, since[r], regions[r], size);
    TracksDirty(hist, newest, oldest, since, regions, size, r, regions[r].count);
    if |hist| % size == oldest % size {
      SameSlot(oldest, |hist|, size);
    }
    TracksDrop(hist, now, oldest, since', regions', size);
  }

  /** The oldest block has been used up. */
  lemma TracksNext(hist: seq<Block>, newest: Block, oldest: nat, since: map<nat, nat>, regions: map<nat, Region>, size: nat)
    requires Tracks(hist, newest, oldest, since, regions, size) && oldest < |hist|
    requires newest.oldestEntry == |(hist + [newest])[oldest].entries|
    ensures Tracks(hist, newest.(oldestBlock := (oldest + 1) % size, oldestEntry := 0), oldest + 1, since, regions, size)
  {
    hide Flat, Offset;
    var all, now := hist + [newest], newest.(oldestBlock := (oldest + 1) % size, oldestEntry := 0);
    var all' := hist + [now];
    OffsetNext(all, oldest);
    forall r | r in regions
      ensures Placed(all', oldest + 1, since[r], regions[r], size)
    {
      assert Placed(all, oldest, since[r], regions[r], size);
      assert Where(all, since, regions)[r] >= Offset(all, oldest) + newest.oldestEntry;
    }
    FlatSame(hist, newest, now);
    WhereSame(hist, newest, now, since, regions, oldest + 1);
  }

  /** The newest block is finished and another one begun. */
  lemma TracksAdvance(hist: seq<Block>, newest: Block, oldest: nat, since: map<nat, nat>, regions: map<nat, Region>, size: nat, now: Block)
    requires Tracks(hist, newest, oldest, since, regions, size) && |hist| + 1 < oldest + size
    requires now.entries == [] && now.oldestBlock == newest.oldestBlock && now.oldestEntry == newest.oldestEntry
    ensures Tracks(hist + [newest], now, oldest, since, regions, size)
  {
    hide Tells, Flat, Offset;
    var all, all' := hist + [newest], hist + [newest] + [now];
    FlatEmpty(all, now);
    forall q: nat | q <= |all|
      ensures Offset(all', q) == Offset(all, q)
    {
      OffsetSame(all', all, q);
    }
    forall r | r in regions
      ensures Placed(all', oldest, since[r], regions[r], size)
    {
      assert Placed(all, oldest, since[r], regions[r], size);
    }
    assert Where(all', since, regions) == Where(all, since, regions);
  }

  // Recovery

  /** The last block written leads to exactly the regions held when it was written. */
  ghost predicate Saved(hist: seq<Block>, saved: nat, committed: set<nat>, size: nat) {
    && saved < |hist| < saved + size
    && var last := hist[|hist| - 1];
    && last.oldestBlock == saved % size && last.oldestEntry <= |hist[saved].entries|
    && Replay({}, Flat(hist)[From(hist, saved)..]) == committed
  }

  ghost function From(hist: seq<Block>, saved: nat): (o: nat)
    requires saved < |hist| && hist[|hist| - 1].oldestEntry <= |hist[saved].entries|
    ensures o <= |Flat(hist)|
  {
    OffsetNext(hist, saved);
    Offset(hist, saved) + hist[|hist| - 1].oldestEntry
  }

  /** The blocks of use are where the ring should have them. */
  ghost predicate Live(ring: seq<Slot>, hist: seq<Block>, saved: nat) {
    |ring| >= 2 && forall q :: saved <= q < |hist| ==> ring[q % |ring|] == Intact(hist[q])
  }

  /** What the stream says between two places. */
  ghost function Between(hist: seq<Block>, from: nat, to: nat): set<nat> {
    if from <= to <= |Flat(hist)| then Replay({}, Flat(hist)[from..to]) else {}
  }

  lemma ReadOne(hist: seq<Block>, from: nat, q: nat, e: nat)
    requires q < |hist| && e < |hist[q].entries| && from <= Offset(hist, q) + e
    ensures Between(hist, from, Offset(hist, q) + e + 1) == Step(Between(hist, from, Offset(hist, q) + e), hist[q].entries[e])
  {
    EntryIn(hist, q, e);
    var flat, i := Flat(hist), Offset(hist, q) + e;
    assert flat[from..i + 1] == flat[from..i] + [flat[i]];
    ReplayConcat({}, flat[from..i], [flat[i]]);
    assert Replay(Replay({}, flat[from..i]), [flat[i]]) == Step(Replay({}, flat[from..i]), flat[i]);
  }

  method ReadBlock(entries: seq<LogEntry>, first: nat, before: set<nat>, ghost hist: seq<Block>, ghost from: nat, ghost q: nat) returns (held: set<nat>)
    requires q < |hist| && entries == hist[q].entries && first <= |entries|
    requires from <= Offset(hist, q) + first && before == Between(hist, from, Offset(hist, q) + first)
    ensures held == Between(hist, from, Offset(hist, q) + |entries|)
  {
    hide Offset, Between;
    held := before;
    var entry := first;
    while entry < |entries|
      invariant first <= entry <= |entries|
      invariant held == Between(hist, from, Offset(hist, q) + entry)
    {
      ReadOne(hist, from, q, entry);
      held := Step(held, entries[entry]);
      entry := entry + 1;
    }
  }

  function SlotOf(q: nat, size: nat): nat
    requires size > 0
  {
    q % size
  }

  lemma LiveAt(ring: seq<Slot>, hist: seq<Block>, saved: nat, q: nat)
    requires Live(ring, hist, saved) && saved <= q < |hist|
    ensures |ring| >= 2 && SlotOf(q, |ring|) < |ring| && ring[SlotOf(q, |ring|)] == Intact(hist[q])
  {
  }

  lemma SlotNext(q: nat, size: nat)
    requires size >= 2
    ensures SlotOf(q + 1, size) == if SlotOf(q, size) + 1 == size then 0 else SlotOf(q, size) + 1
  {
    NextSlot(q, size);
  }

  lemma SlotSame(a: nat, b: nat, size: nat)
    requires 0 < size && a <= b < a + size && SlotOf(a, size) == SlotOf(b, size)
    ensures a == b
  {
    SameSlot(a, b, size);
  }

  lemma SavedMeans(hist: seq<Block>, saved: nat, committed: set<nat>, size: nat)
    requires Saved(hist, saved, committed, size)
    ensures saved < |hist| < saved + size
    ensures var last := hist[|hist| - 1];
      && size > 0 && last.oldestBlock == SlotOf(saved, size) && last.oldestEntry <= |hist[saved].entries|
      && var from := Offset(hist, saved) + last.oldestEntry;
      Between(hist, from, from) == {} && Between(hist, from, Offset(hist, |hist|)) == committed
  {
    var from, n := From(hist, saved), |Flat(hist)|;
    assert hist[..|hist|] == hist;
    assert Flat(hist)[from..n] == Flat(hist)[from..];
  }

  /** Reads the entries of use, from the oldest to the end of the last block written. */
  method Load(ring: seq<Slot>, newest: nat, ghost hist: seq<Block>, ghost saved: nat, ghost committed: set<nat>) returns (held: set<nat>)
    requires Live(ring, hist, saved) && Saved(hist, saved, committed, |ring|) && newest == SlotOf(|hist| - 1, |ring|)
    ensures held == committed
  {
    hide Live, Saved, Offset, Between, SlotOf;
    SavedMeans(hist, saved, committed, |ring|);
    LiveAt(ring, hist, saved, |hist| - 1);
    var block: nat, entry: nat := ring[newest].block.oldestBlock, ring[newest].block.oldestEntry;
    held := {};
    ghost var q: nat, from: nat := saved, Offset(hist, saved) + entry;
    while true
      invariant saved <= q < |hist| && block == SlotOf(q, |ring|) && entry <= |hist[q].entries|
      invariant from <= Offset(hist, q) + entry && held == Between(hist, from, Offset(hist, q) + entry)
      decreases |hist| - q
    {
      LiveAt(ring, hist, saved, q);
      var entries := ring[block].block.entries;
      held := ReadBlock(entries, entry, held, hist, from, q);
      NextOffset(hist, q);
      if block == newest {
        SlotSame(q, |hist| - 1, |ring|);
        break;
      }
      SlotNext(q, |ring|);
      block := if block + 1 == |ring| then 0 else block + 1;
      entry, q := 0, q + 1;
    }
  }

  lemma NextOffset(hist: seq<Block>, q: nat)
    requires q < |hist|
    ensures Offset(hist, q + 1) == Offset(hist, q) + |hist[q].entries|
  {
    OffsetNext(hist, q);
  }
}
