/** A cache of disk blocks. Buffers are named by handles; the hash chains and the lists hold them. */
module BufferCache {
  import opened Devices
  import opened Cardinality
  import opened Sequences

  datatype State = Inval | Clean | Dirty | Journaled

  datatype Buffer = Buffer(sector: nat, state: State, count: nat, data: Data)

  type Buffers = map<nat, Buffer>

  const BUCKETS := 9999

  // What holds of the cache

  /** Every buffer is in use or free, and free ones hold nothing. */
  ghost predicate Pools(bufs: Buffers, lru: seq<nat>, free: seq<nat>) {
    && Unique(lru) && Unique(free)
    && (forall h :: h in lru ==> h in bufs && h !in free)
    && (forall h :: h in free ==> h in bufs && bufs[h].state == Inval && bufs[h].count == 0)
    && forall h :: h in bufs ==> h in lru || h in free
  }

  /** Every buffer in use is in the chain of its own sector, once, and no other is in any chain. */
  ghost predicate Hashed(bufs: Buffers, lru: seq<nat>, table: seq<seq<nat>>, hash: nat -> nat) {
    && |table| == BUCKETS && (forall s :: hash(s) < BUCKETS)
    && (forall b :: 0 <= b < BUCKETS ==> Unique(table[b]))
    && (forall b, h :: 0 <= b < BUCKETS && h in table[b] ==> h in bufs && h in lru && hash(bufs[h].sector) == b)
    && forall h :: h in lru && h in bufs ==> h in table[hash(bufs[h].sector)]
  }

  /** No sector has two buffers. */
  ghost predicate OnePer(bufs: Buffers, lru: seq<nat>) {
    forall g, h :: g in lru && h in lru && g in bufs && h in bufs && bufs[g].sector == bufs[h].sector ==> g == h
  }

  /** A list has exactly the buffers in a state. */
  ghost predicate Lists(bufs: Buffers, list: seq<nat>, state: State) {
    Unique(list) && forall h :: h in list <==> h in bufs && bufs[h].state == state
  }

  ghost predicate Unsaved(bufs: Buffers, s: nat) {
    exists h :: h in bufs && bufs[h].sector == s && (bufs[h].state == Dirty || bufs[h].state == Journaled)
  }

  /** Buffers with contents have the last data stored; clean ones have it from the disk; and what is
      not in an unsaved buffer is on the disk. */
  ghost predicate Refines(bufs: Buffers, disk: Disk, flat: Disk) {
    && (forall h :: h in bufs && bufs[h].state != Inval ==> bufs[h].data == At(flat, bufs[h].sector))
    && forall s :: At(flat, s) != At(disk, s) ==> Unsaved(bufs, s)
  }

  ghost predicate Absent(bufs: Buffers, lru: seq<nat>, sector: nat) {
    forall g :: g in lru && g in bufs ==> bufs[g].sector != sector
  }

  /** Handles are given out in order. */
  ghost predicate Below(bufs: Buffers, next: nat) {
    forall h :: h in bufs ==> h < next
  }

  /** All that, within the limit on buffers. */
  ghost predicate Arranged(bufs: Buffers, lru: seq<nat>, free: seq<nat>, table: seq<seq<nat>>, hash: nat -> nat, count: nat, next: nat, max: nat) {
    && Pools(bufs, lru, free) && Hashed(bufs, lru, table, hash) && OnePer(bufs, lru)
    && count == |lru| <= max && |bufs| <= max && Below(bufs, next)
  }

  // One buffer changes

  lemma HashedSame(bufs: Buffers, lru: seq<nat>, table: seq<seq<nat>>, hash: nat -> nat, h: nat, b: Buffer)
    requires Hashed(bufs, lru, table, hash) && OnePer(bufs, lru) && h in bufs && b.sector == bufs[h].sector
    ensures Hashed(bufs[h := b], lru, table, hash) && OnePer(bufs[h := b], lru)
  {
  }

  lemma ListsOther(bufs: Buffers, list: seq<nat>, state: State, h: nat, b: Buffer)
    requires Lists(bufs, list, state) && (h in bufs ==> bufs[h].state != state) && b.state != state
    ensures Lists(bufs[h := b], list, state)
  {
  }

  lemma ListsLeft(bufs: Buffers, list: seq<nat>, state: State, h: nat, b: Buffer)
    requires Lists(bufs, list, state) && h in bufs && bufs[h].state == state && b.state != state
    ensures Lists(bufs[h := b], Minus(list, h), state) && |Minus(list, h)| == |list| - 1
  {
    MinusOnly(list, h);
  }

  lemma ListsJoined(bufs: Buffers, list: seq<nat>, state: State, h: nat, b: Buffer)
    requires Lists(bufs, list, state) && (h in bufs ==> bufs[h].state != state) && b.state == state
    ensures Lists(bufs[h := b], list + [h], state)
  {
    SnocUnique(list, h);
  }

  lemma ListsSame(bufs: Buffers, list: seq<nat>, state: State, h: nat, b: Buffer)
    requires Lists(bufs, list, state) && h in bufs && bufs[h].state == b.state
    ensures Lists(bufs[h := b], list, state)
  {
  }

  /** A sector that is unsaved stays so, or its buffer is the one that changed. */
  lemma UnsavedOther(bufs: Buffers, h: nat, b: Buffer, s: nat)
    requires Unsaved(bufs, s) && (h in bufs && bufs[h].sector == s && bufs[h].state in {Dirty, Journaled} ==> b.sector == s && b.state in {Dirty, Journaled})
    ensures Unsaved(bufs[h := b], s)
  {
    var g :| g in bufs && bufs[g].sector == s && (bufs[g].state == Dirty || bufs[g].state == Journaled);
    assert (bufs[h := b])[g].sector == s;
  }

  lemma InUse(bufs: Buffers, lru: seq<nat>, free: seq<nat>, g: nat)
    requires Pools(bufs, lru, free) && g in bufs && bufs[g].state != Inval
    ensures g in lru
  {
  }

  /** New data in a buffer. */
  lemma RefinesStored(bufs: Buffers, lru: seq<nat>, free: seq<nat>, disk: Disk, flat: Disk, h: nat, b: Buffer)
    requires Refines(bufs, disk, flat) && OnePer(bufs, lru) && Pools(bufs, lru, free) && h in lru && h in bufs
    requires b.sector == bufs[h].sector && b.state in {Dirty, Journaled}
    ensures Refines(bufs[h := b], disk, flat[b.sector := b.data])
  {
    var bufs', flat' := bufs[h := b], flat[b.sector := b.data];
    forall g | g in bufs' && bufs'[g].state != Inval
      ensures bufs'[g].data == At(flat', bufs'[g].sector)
    {
      if g != h {
        InUse(bufs, lru, free, g);
      }
    }
    forall s | At(flat', s) != At(disk, s)
      ensures Unsaved(bufs', s)
    {
      if s == b.sector {
        assert bufs'[h].sector == s;
      } else {
        UnsavedOther(bufs, h, b, s);
      }
    }
  }

  /** A buffer is written out. */
  lemma RefinesWritten(bufs: Buffers, disk: Disk, flat: Disk, h: nat, b: Buffer)
    requires Refines(bufs, disk, flat) && h in bufs && bufs[h].state != Inval && b == bufs[h].(state := Clean)
    ensures Refines(bufs[h := b], disk[b.sector := b.data], flat)
  {
    forall s | At(flat, s) != At(disk[b.sector := b.data], s)
      ensures Unsaved(bufs[h := b], s)
    {
      UnsavedOther(bufs, h, b, s);
    }
  }

  /** A buffer that is saved changes its state or its sector, and holds nothing new. */
  lemma RefinesQuiet(bufs: Buffers, disk: Disk, flat: Disk, h: nat, b: Buffer)
    requires Refines(bufs, disk, flat) && (h in bufs ==> bufs[h].state in {Inval, Clean}) && b.state in {Inval, Clean}
    requires b.state != Inval ==> b.data == At(flat, b.sector)
    ensures Refines(bufs[h := b], disk, flat)
  {
    forall s | At(flat, s) != At(disk, s)
      ensures Unsaved(bufs[h := b], s)
    {
      UnsavedOther(bufs, h, b, s);
    }
  }

  /** A buffer's contents are given up. */
  lemma RefinesDropped(bufs: Buffers, lru: seq<nat>, free: seq<nat>, disk: Disk, flat: Disk, h: nat, b: Buffer)
    requires Refines(bufs, disk, flat) && OnePer(bufs, lru) && Pools(bufs, lru, free) && h in lru && h in bufs
    requires b == bufs[h].(state := Inval)
    ensures Refines(bufs[h := b], disk, flat[b.sector := At(disk, b.sector)])
  {
    var bufs', flat' := bufs[h := b], flat[b.sector := At(disk, b.sector)];
    forall g | g in bufs' && bufs'[g].state != Inval
      ensures bufs'[g].data == At(flat', bufs'[g].sector)
    {
      InUse(bufs, lru, free, g);
    }
    forall s | At(flat', s) != At(disk, s)
      ensures Unsaved(bufs', s)
    {
      UnsavedOther(bufs, h, b, s);
    }
  }

  // Buffers come into use and go out of it

  lemma Evicted(bufs: Buffers, lru: seq<nat>, free: seq<nat>, table: seq<seq<nat>>, hash: nat -> nat, h: nat)
    requires Pools(bufs, lru, free) && Hashed(bufs, lru, table, hash) && OnePer(bufs, lru) && h in lru && h in bufs && bufs[h].count == 0
    ensures var k := hash(bufs[h].sector);
      var bufs', lru', table' := bufs[h := bufs[h].(state := Inval)], Minus(lru, h), table[k := Minus(table[k], h)];
      && Pools(bufs', lru', free + [h]) && Hashed(bufs', lru', table', hash) && OnePer(bufs', lru') && |lru'| == |lru| - 1
  {
    var k := hash(bufs[h].sector);
    MinusOnly(lru, h);
    MinusOnly(table[k], h);
    SnocUnique(free, h);
  }

  lemma TakenIn(bufs: Buffers, lru: seq<nat>, free: seq<nat>, table: seq<seq<nat>>, hash: nat -> nat, h: nat, b: Buffer)
    requires Pools(bufs, lru, free) && Hashed(bufs, lru, table, hash) && OnePer(bufs, lru) && h !in lru
    requires Absent(bufs, lru, b.sector)
    ensures var k := hash(b.sector);
      var bufs', table' := bufs[h := b], table[k := [h] + table[k]];
      && Pools(bufs', lru + [h], Minus(free, h)) && Hashed(bufs', lru + [h], table', hash) && OnePer(bufs', lru + [h])
  {
    var k := hash(b.sector);
    SnocUnique(lru, h);
    MinusOnly(free, h);
    assert h !in table[k];
    ConsUnique(h, table[k]);
  }

  lemma Touched(bufs: Buffers, lru: seq<nat>, free: seq<nat>, table: seq<seq<nat>>, hash: nat -> nat, h: nat)
    requires Pools(bufs, lru, free) && Hashed(bufs, lru, table, hash) && OnePer(bufs, lru) && h in lru && Unique(lru)
    ensures var lru' := Minus(lru, h) + [h];
      && (forall g :: g in lru' <==> g in lru)
      && Pools(bufs, lru', free) && Hashed(bufs, lru', table, hash) && OnePer(bufs, lru') && |lru'| == |lru|
  {
    hide Pools, Hashed, OnePer;
    MinusOnly(lru, h);
    SnocUnique(Minus(lru, h), h);
    Reordered(bufs, lru, Minus(lru, h) + [h], free, table, hash);
  }

  /** The order of use does not matter. */
  lemma Reordered(bufs: Buffers, lru: seq<nat>, lru': seq<nat>, free: seq<nat>, table: seq<seq<nat>>, hash: nat -> nat)
    requires Pools(bufs, lru, free) && Hashed(bufs, lru, table, hash) && OnePer(bufs, lru)
    requires Unique(lru') && forall h :: h in lru' <==> h in lru
    ensures Pools(bufs, lru', free) && Hashed(bufs, lru', table, hash) && OnePer(bufs, lru')
  {
    hide Unique;
  }

  ghost function Members(s: seq<nat>): set<nat> {
    if s == [] then {} else Members(s[..|s| - 1]) + {s[|s| - 1]}
  }

  lemma {:induction false} MembersAre(s: seq<nat>, x: nat)
    ensures x in Members(s) <==> x in s
  {
    if s != [] {
      var n := |s| - 1;
      MembersAre(s[..n], x);
      assert s == s[..n] + [s[n]];
    }
  }

  lemma {:induction false} MembersSize(s: seq<nat>)
    requires Unique(s)
    ensures |Members(s)| == |s|
  {
    if s != [] {
      var n := |s| - 1;
      MembersSize(s[..n]);
      MembersAre(s[..n], s[n]);
    }
  }

  /** With none free, the buffers are those in use. */
  lemma PoolSize(bufs: Buffers, lru: seq<nat>, free: seq<nat>)
    requires Pools(bufs, lru, free) && free == []
    ensures |bufs| == |lru|
  {
    MembersSize(lru);
    forall x: nat
      ensures x in bufs.Keys <==> x in Members(lru)
    {
      MembersAre(lru, x);
    }
    assert bufs.Keys == Members(lru);
  }

  // The order of use

  predicate Idle(bufs: Buffers, h: nat) {
    h in bufs && bufs[h].count == 0 && bufs[h].state in {Clean, Inval}
  }

  /** The first `n` of a list that are idle and saved. */
  function FirstIdle(bufs: Buffers, list: seq<nat>, n: nat): seq<nat> {
    if list == [] then []
    else
      var k := |list| - 1;
      var first := FirstIdle(bufs, list[..k], n);
      if |first| < n && Idle(bufs, list[k]) then first + [list[k]] else first
  }

  lemma {:induction false} FirstIdleFull(bufs: Buffers, list: seq<nat>, i: nat, n: nat)
    requires i <= |list| && |FirstIdle(bufs, list[..i], n)| == n
    ensures FirstIdle(bufs, list, n) == FirstIdle(bufs, list[..i], n)
  {
    if i < |list| {
      assert list[..|list| - 1][..i] == list[..i];
      FirstIdleFull(bufs, list[..|list| - 1], i, n);
    } else {
      assert list[..i] == list;
    }
  }

  lemma FirstIdleNext(bufs: Buffers, list: seq<nat>, i: nat, n: nat)
    requires i < |list|
    ensures var first := FirstIdle(bufs, list[..i], n);
      FirstIdle(bufs, list[..i + 1], n) == if |first| < n && Idle(bufs, list[i]) then first + [list[i]] else first
  {
    assert list[..i + 1][..i] == list[..i];
  }

  function MinusAll(s: seq<nat>, gone: seq<nat>): seq<nat> {
    if gone == [] then s else Minus(MinusAll(s, gone[..|gone| - 1]), gone[|gone| - 1])
  }

  lemma MinusMore(s: seq<nat>, gone: seq<nat>, h: nat)
    ensures MinusAll(s, gone + [h]) == Minus(MinusAll(s, gone), h)
  {
    assert (gone + [h])[..|gone|] == gone;
  }

  class Cache {
    const hash: nat -> nat
    const maxBuffers: nat
    const maxEvict: nat
    var bufs: Buffers
    var table: seq<seq<nat>>
    var lru: seq<nat>
    var free: seq<nat>
    var dirty: seq<nat>
    var journaled: seq<nat>
    var bufferCount: nat
    var dirtyCount: nat
    var journaledCount: nat
    var next: nat
    var disk: Disk
    /** The data last stored in each sector. */
    ghost var flat: Disk

    ghost predicate Queued()
      reads this
    {
      && Lists(bufs, dirty, Dirty) && Lists(bufs, journaled, Journaled)
      && dirtyCount == |dirty| && journaledCount == |journaled|
    }

    ghost predicate Placed()
      reads this
    {
      Arranged(bufs, lru, free, table, hash, bufferCount, next, maxBuffers)
    }

    ghost predicate Valid()
      reads this
    {
      Placed() && Queued() && Refines(bufs, disk, flat)
    }

    constructor (hash: nat -> nat, maxBuffers: nat, maxEvict: nat, disk: Disk)
      requires forall s :: hash(s) < BUCKETS
      ensures Valid() && flat == disk && this.disk == disk && bufs == map[] && this.maxBuffers == maxBuffers
    {
      this.hash, this.maxBuffers, this.maxEvict := hash, maxBuffers, maxEvict;
      bufs, table := map[], seq(BUCKETS, _ => []);
      lru, free, dirty, journaled := [], [], [], [];
      bufferCount, dirtyCount, journaledCount, next := 0, 0, 0, 0;
      this.disk, flat := disk, disk;
    }

    /** A buffer that a client holds. */
    ghost predicate Busy(h: nat)
      reads this
    {
      h in bufs && h in lru && bufs[h].count > 0
    }

    // States

    method SetDirty(h: nat, data: Data)
      requires Valid() && Busy(h)
      modifies this`bufs, this`dirty, this`journaled, this`dirtyCount, this`journaledCount, this`flat
      ensures Valid() && bufs == old(bufs)[h := old(bufs)[h].(state := Dirty, data := data)]
      ensures flat == old(flat)[bufs[h].sector := data]
    {
      hide Pools, Hashed, OnePer, Lists, Refines;
      var b := bufs[h].(state := Dirty, data := data);
      RefinesStored(bufs, lru, free, disk, flat, h, b);
      NotFree(bufs, lru, free, h);
      PlacedSame(bufs, lru, free, table, hash, h, b);
      flat := flat[b.sector := data];
      if bufs[h].state == Dirty {
        ListsSame(bufs, dirty, Dirty, h, b);
        ListsOther(bufs, journaled, Journaled, h, b);
      } else {
        if bufs[h].state == Journaled {
          ListsLeft(bufs, journaled, Journaled, h, b);
          journaled, journaledCount := Minus(journaled, h), journaledCount - 1;
        } else {
          ListsOther(bufs, journaled, Journaled, h, b);
        }
        ListsJoined(bufs, dirty, Dirty, h, b);
        dirty, dirtyCount := dirty + [h], dirtyCount + 1;
      }
      bufs := bufs[h := b];
    }

    /** Takes a buffer off the lists it may be on. */
    method Settle(h: nat, b: Buffer)
      requires Placed() && Queued() && h in bufs && b.state in {Clean, Inval} && b.sector == bufs[h].sector && (h in free ==> b == bufs[h])
      modifies this`bufs, this`dirty, this`journaled, this`dirtyCount, this`journaledCount
      ensures Placed() && Queued() && bufs == old(bufs)[h := b]
    {
      hide Pools, Hashed, OnePer, Lists, Refines;
      PlacedSame(bufs, lru, free, table, hash, h, b);
      if bufs[h].state == Dirty {
        ListsLeft(bufs, dirty, Dirty, h, b);
        dirty, dirtyCount := Minus(dirty, h), dirtyCount - 1;
      } else {
        ListsOther(bufs, dirty, Dirty, h, b);
      }
      if bufs[h].state == Journaled {
        ListsLeft(bufs, journaled, Journaled, h, b);
        journaled, journaledCount := Minus(journaled, h), journaledCount - 1;
      } else {
        ListsOther(bufs, journaled, Journaled, h, b);
      }
      bufs := bufs[h := b];
    }

    /** Gives up what a buffer holds. */
    method SetEmpty(h: nat)
      requires Valid() && h in bufs && h in lru
      modifies this`bufs, this`dirty, this`journaled, this`dirtyCount, this`journaledCount, this`flat
      ensures Valid() && bufs == old(bufs)[h := old(bufs)[h].(state := Inval)]
      ensures flat == old(flat)[bufs[h].sector := At(disk, bufs[h].sector)]
    {
      hide Pools, Hashed, OnePer, Lists, Refines;
      var b := bufs[h].(state := Inval);
      RefinesDropped(bufs, lru, free, disk, flat, h, b);
      NotFree(bufs, lru, free, h);
      flat := flat[b.sector := At(disk, b.sector)];
      Settle(h, b);
    }

    /** A buffer with contents has been written to the journal. */
    method AddJournaled(h: nat)
      requires Valid() && h in bufs && h in lru && bufs[h].state in {Dirty, Clean}
      modifies this`bufs, this`dirty, this`journaled, this`dirtyCount, this`journaledCount
      ensures Valid() && bufs == old(bufs)[h := old(bufs)[h].(state := Journaled)]
    {
      hide Pools, Hashed, OnePer, Lists, Refines;
      var b := bufs[h].(state := Journaled);
      RefinesStored(bufs, lru, free, disk, flat, h, b);
      RefinesAt(bufs, disk, flat, h);
      StoredSame(bufs[h := b], disk, flat, b.sector);
      NotFree(bufs, lru, free, h);
      PlacedSame(bufs, lru, free, table, hash, h, b);
      if bufs[h].state == Dirty {
        ListsLeft(bufs, dirty, Dirty, h, b);
        dirty, dirtyCount := Minus(dirty, h), dirtyCount - 1;
      } else {
        ListsOther(bufs, dirty, Dirty, h, b);
      }
      ListsJoined(bufs, journaled, Journaled, h, b);
      journaled, journaledCount := journaled + [h], journaledCount + 1;
      bufs := bufs[h := b];
    }

    /** Writes a buffer, as its client left it, to its sector. */
    method WriteBuffer(h: nat, data: Data)
      requires Valid() && h in bufs && h in lru
      modifies this`bufs, this`dirty, this`journaled, this`dirtyCount, this`journaledCount, this`disk, this`flat
      ensures Valid() && bufs == old(bufs)[h := old(bufs)[h].(state := Clean, data := data)]
      ensures disk == old(disk)[bufs[h].sector := data] && flat == old(flat)[bufs[h].sector := data]
    {
      hide Pools, Hashed, OnePer, Lists, Refines;
      var b := bufs[h].(state := Clean, data := data);
      RefinesStored(bufs, lru, free, disk, flat, h, b.(state := Dirty));
      ghost var stored := bufs[h := b.(state := Dirty)];
      RefinesWritten(stored, disk, flat[b.sector := data], h, b);
      assert stored[h := b] == bufs[h := b];
      NotFree(bufs, lru, free, h);
      disk, flat := disk[b.sector := data], flat[b.sector := data];
      Settle(h, b);
    }

    method Brelse(h: nat)
      requires Valid() && Busy(h)
      modifies this`bufs
      ensures Valid() && bufs == old(bufs)[h := old(bufs)[h].(count := old(bufs)[h].count - 1)]
    {
      hide Pools, Hashed, OnePer, Lists, Refines;
      var b := bufs[h].(count := bufs[h].count - 1);
      Counted(h, b);
      bufs := bufs[h := b];
    }

    // Getting a buffer

    /** Looks for a sector's buffer in its hash chain. */
    method Find(sector: nat) returns (found: bool, h: nat)
      requires Placed()
      ensures found ==> h in lru && h in bufs && bufs[h].sector == sector
      ensures !found ==> forall g :: g in lru && g in bufs ==> bufs[g].sector != sector
    {
      hide Pools, OnePer;
      var chain := table[hash(sector)];
      for i := 0 to |chain|
        invariant forall k :: 0 <= k < i ==> chain[k] in bufs && bufs[chain[k]].sector != sector
      {
        assert chain[i] in chain;
        if bufs[chain[i]].sector == sector {
          return true, chain[i];
        }
      }
      return false, 0;
    }

    /** Takes one idle, saved buffer out of use. */
    method EvictOne(h: nat)
      requires Valid() && h in lru && h in bufs && bufs[h].count == 0 && bufs[h].state in {Clean, Inval}
      modifies this`bufs, this`lru, this`free, this`table, this`bufferCount
      ensures Valid() && bufs == old(bufs)[h := old(bufs)[h].(state := Inval)]
      ensures lru == Minus(old(lru), h) && free == old(free) + [h]
    {
      hide Pools, Hashed, OnePer, Lists, Refines, Minus, Below, Unique, At;
      var b, k := bufs[h].(state := Inval), hash(bufs[h].sector);
      Bucket(bufs, lru, table, hash, bufs[h].sector);
      Evicted(bufs, lru, free, table, hash, h);
      RefinesQuiet(bufs, disk, flat, h, b);
      ListsOther(bufs, dirty, Dirty, h, b);
      ListsOther(bufs, journaled, Journaled, h, b);
      SameKeys(bufs, h, b, next);
      lru, bufferCount := Minus(lru, h), bufferCount - 1;
      table := table[k := Minus(table[k], h)];
      free := free + [h];
      bufs := bufs[h := b];
    }

    /** Takes idle, saved buffers out of use, the least recently used first. */
    method Evict()
      requires Valid() && free == []
      modifies this`bufs, this`lru, this`free, this`table, this`bufferCount
      ensures Valid() && Kept(old(bufs), bufs) && |lru| <= old(|lru|) && forall g :: g in lru ==> g in old(lru)
      ensures maxEvict > 0 && free == [] ==> lru == old(lru) && forall g :: g in lru && g in bufs ==> bufs[g].count > 0 || bufs[g].state in {Dirty, Journaled}
      ensures maxEvict > 0 ==> free == FirstIdle(old(bufs), old(lru), maxEvict) && lru == MinusAll(old(lru), free)
    {
      hide Pools, Hashed, OnePer, Lists, Refines, Minus, Unique, Kept, FirstIdle, MinusAll, Halfway;
      var all, count, i: nat := lru, 0, 0;
      PoolFacts(bufs, lru, free);
      KeptSame(bufs);
      NoneGone(bufs, all, maxEvict);
      while i < |all|
        invariant i <= |all| && Valid() && Kept(old(bufs), bufs) && all == old(lru)
        invariant Halfway(old(bufs), bufs, all, lru, free, i) && count == |free|
        invariant maxEvict > 0 ==> count < maxEvict && free == FirstIdle(old(bufs), all[..i], maxEvict)
      {
        var h := all[i];
        PoolFacts(bufs, lru, free);
        AtHalf(old(bufs), bufs, all, lru, free, i);
        FirstIdleNext(old(bufs), all, i, maxEvict);
        if bufs[h].count == 0 && bufs[h].state != Dirty && bufs[h].state != Journaled {
          KeptEvicted(old(bufs), bufs, h);
          OneGone(old(bufs), bufs, all, lru, free, i, bufs[h].(state := Inval));
          EvictOne(h);
          count := count + 1;
          if count == maxEvict {
            FirstIdleFull(old(bufs), all, i + 1, maxEvict);
            i := i + 1;
            break;
          }
        } else {
          OneStays(old(bufs), bufs, all, lru, free, i);
        }
        i := i + 1;
      }
      assert all[..|all|] == all;
      EndHalf(old(bufs), bufs, all, lru, free, i, maxEvict);
    }

    /** Every buffer is held by a client or unsaved. */
    ghost predicate Exhausted()
      reads this
    {
      bufferCount == maxBuffers && forall g :: g in lru && g in bufs ==> bufs[g].count > 0 || bufs[g].state in {Dirty, Journaled}
    }

    /** A buffer that is not in use: a free one, or else one that has been evicted, or a new one if
        there may be more. */
    method NewBuffer() returns (ok: bool, h: nat)
      requires Valid() && maxEvict > 0
      modifies this`bufs, this`lru, this`free, this`table, this`bufferCount
      ensures Valid() && Kept(old(bufs), bufs) && forall g :: g in lru ==> g in old(lru)
      ensures ok ==> h !in lru && bufferCount < maxBuffers && (h in free || (free == [] && h == next))
      ensures !ok ==> Exhausted()
      ensures lru == MinusAll(old(lru), if old(free) == [] && old(bufferCount) == maxBuffers then FirstIdle(old(bufs), old(lru), maxEvict) else [])
      ensures ok && old(free) != [] ==> h == old(free)[0]
    {
      hide Pools, Hashed, OnePer, Lists, Refines, Kept, Unique, FirstIdle, Minus;
      KeptSame(bufs);
      PoolFacts(bufs, lru, free);
      PoolRoom(bufs, lru, free, maxBuffers);
      if free != [] {
        return true, free[0];
      }
      if bufferCount < maxBuffers {
        return true, next;
      }
      Evict();
      PoolFacts(bufs, lru, free);
      PoolRoom(bufs, lru, free, maxBuffers);
      if free != [] {
        return true, free[0];
      }
      return false, 0;
    }

    /** The buffer of a sector, found in the cache or put there without contents. */
    method Getblk(sector: nat) returns (ok: bool, h: nat)
      requires Valid() && maxEvict > 0
      modifies this`bufs, this`lru, this`free, this`table, this`bufferCount, this`next
      ensures Valid() && (!ok ==> Exhausted())
      ensures ok ==> Busy(h) && bufs[h].sector == sector
      ensures forall g :: g in old(bufs) && (old(bufs)[g].count > 0 || old(bufs)[g].state in {Dirty, Journaled}) ==>
        g in bufs && bufs[g] == if ok && g == h then old(bufs)[g].(count := old(bufs)[g].count + 1) else old(bufs)[g]
      ensures !Absent(old(bufs), old(lru), sector) ==> ok && h in old(lru) && lru == Minus(old(lru), h) + [h]
      ensures ok && Absent(old(bufs), old(lru), sector) ==>
        lru == MinusAll(old(lru), if old(free) == [] && old(bufferCount) == maxBuffers then FirstIdle(old(bufs), old(lru), maxEvict) else []) + [h]
    {
      hide Pools, Hashed, OnePer, Lists, Refines, Unique, FirstIdle, Minus, MinusAll;
      var found;
      found, h := Find(sector);
      if found {
        Hit(h);
        return true, h;
      }
      PoolFacts(bufs, lru, free);
      ghost var before := lru;
      ok, h := NewBuffer();
      if ok {
        PoolFacts(bufs, lru, free);
        Enter(sector, h);
      }
    }

    /** A buffer found is counted once more and becomes the most recently used. */
    method Hit(h: nat)
      requires Valid() && h in lru && h in bufs
      modifies this`bufs, this`lru
      ensures Valid() && bufs == old(bufs)[h := old(bufs)[h].(count := old(bufs)[h].count + 1)] && lru == Minus(old(lru), h) + [h]
    {
      hide Pools, Hashed, OnePer, Lists, Refines, Unique, Minus;
      var b := bufs[h].(count := bufs[h].count + 1);
      Counted(h, b);
      PoolFacts(bufs[h := b], lru, free);
      Touched(bufs[h := b], lru, free, table, hash, h);
      bufs := bufs[h := b];
      lru := Minus(lru, h) + [h];
    }

    /** A buffer not in use becomes the buffer of a sector. */
    method Enter(sector: nat, h: nat)
      requires Valid() && h !in lru && bufferCount < maxBuffers && (h in free || (free == [] && h == next))
      requires Absent(bufs, lru, sector)
      modifies this`bufs, this`lru, this`free, this`table, this`bufferCount, this`next
      ensures Valid() && bufs == old(bufs)[h := Buffer(sector, Inval, 1, 0)] && lru == old(lru) + [h]
      ensures h in old(bufs) ==> old(bufs)[h].count == 0 && old(bufs)[h].state == Inval
    {
      hide Arranged, Lists, Refines, Unique, Minus, Absent, At;
      var b, k := Buffer(sector, Inval, 1, 0), hash(sector);
      Enters(bufs, lru, free, table, hash, bufferCount, h, b, next, maxBuffers);
      RefinesQuiet(bufs, disk, flat, h, b);
      ListsOther(bufs, dirty, Dirty, h, b);
      ListsOther(bufs, journaled, Journaled, h, b);
      var handles := if h in bufs then next else next + 1;
      var chains := table[k := [h] + table[k]];
      bufs, lru, free, table, bufferCount, next := bufs[h := b], lru + [h], Minus(free, h), chains, bufferCount + 1, handles;
    }

    /** The buffer of a sector with its contents: the data last stored there. */
    method Bread(sector: nat) returns (ok: bool, h: nat)
      requires Valid() && maxEvict > 0
      modifies this`bufs, this`lru, this`free, this`table, this`bufferCount, this`next, this`dirty, this`journaled, this`dirtyCount, this`journaledCount
      ensures Valid() && (!ok ==> Exhausted())
      ensures ok ==> Busy(h) && bufs[h].sector == sector && bufs[h].state != Inval && bufs[h].data == At(flat, sector)
      ensures forall g :: g in old(bufs) && (old(bufs)[g].count > 0 || old(bufs)[g].state in {Dirty, Journaled}) && !(ok && g == h) ==>
        g in bufs && bufs[g] == old(bufs)[g]
      ensures ok && h in old(bufs) && old(bufs)[h].state in {Dirty, Journaled} ==> bufs[h] == old(bufs)[h].(count := old(bufs)[h].count + 1)
    {
      hide Pools, Hashed, OnePer, Lists, Refines, Unique;
      ok, h := Getblk(sector);
      if !ok {
        return;
      }
      if bufs[h].state == Inval {
        var b := bufs[h].(state := Clean, data := At(disk, sector));
        NotFree(bufs, lru, free, h);
        OnDisk(bufs, lru, free, disk, flat, h);
        RefinesQuiet(bufs, disk, flat, h, b);
        Settle(h, b);
      } else {
        RefinesAt(bufs, disk, flat, h);
      }
    }

    /** Only the count of a buffer in use changes. */
    lemma Counted(h: nat, b: Buffer)
      requires Valid() && h in bufs && h in lru && b == bufs[h].(count := b.count)
      ensures Refines(bufs[h := b], disk, flat) && Lists(bufs[h := b], dirty, Dirty) && Lists(bufs[h := b], journaled, Journaled)
      ensures Pools(bufs[h := b], lru, free) && Hashed(bufs[h := b], lru, table, hash) && OnePer(bufs[h := b], lru)
      ensures |bufs[h := b]| == |bufs| && (bufs[h := b]).Keys == bufs.Keys
    {
      hide Pools, Hashed, OnePer, Lists, Refines;
      NotFree(bufs, lru, free, h);
      PlacedSame(bufs, lru, free, table, hash, h, b);
      ListsSame(bufs, dirty, Dirty, h, b);
      ListsSame(bufs, journaled, Journaled, h, b);
      CountedRefines(bufs, disk, flat, h, b);
    }
  }

  /** What eviction may not touch. */
  ghost predicate Kept(was: Buffers, now: Buffers) {
    && now.Keys == was.Keys
    && (forall g :: g in was ==> now[g].sector == was[g].sector)
    && forall g :: g in was && (was[g].count > 0 || was[g].state in {Dirty, Journaled}) ==> now[g] == was[g]
  }

  lemma KeptEvicted(was: Buffers, now: Buffers, h: nat)
    requires Kept(was, now) && h in now && now[h].count == 0 && now[h].state in {Clean, Inval}
    ensures Kept(was, now[h := now[h].(state := Inval)])
  {
  }

  lemma KeptSame(was: Buffers)
    ensures Kept(was, was)
  {
  }

  lemma SameKeys(bufs: Buffers, h: nat, b: Buffer, next: nat)
    requires h in bufs && Below(bufs, next)
    ensures |bufs[h := b]| == |bufs| && Below(bufs[h := b], next)
  {
    assert (bufs[h := b]).Keys == bufs.Keys;
  }

  /** A free buffer, or a new one where there is room, becomes the buffer of a sector. */
  lemma Enters(bufs: Buffers, lru: seq<nat>, free: seq<nat>, table: seq<seq<nat>>, hash: nat -> nat, count: nat, h: nat, b: Buffer, next: nat, max: nat)
    requires Arranged(bufs, lru, free, table, hash, count, next, max) && count < max && h !in lru && Absent(bufs, lru, b.sector)
    requires h in free || (free == [] && h == next)
    ensures hash(b.sector) < |table| && (h in bufs ==> bufs[h].state == Inval && bufs[h].count == 0)
    ensures var k := hash(b.sector);
      Arranged(bufs[h := b], lru + [h], Minus(free, h), table[k := [h] + table[k]], hash, count + 1, if h in bufs then next else next + 1, max)
  {
    hide Pools, Hashed, OnePer, Minus, Absent;
    Bucket(bufs, lru, table, hash, b.sector);
    TakenIn(bufs, lru, free, table, hash, h, b);
    PoolFacts(bufs, lru, free);
    EntersSize(bufs, lru, free, h, b, next, max);
  }

  lemma EntersSize(bufs: Buffers, lru: seq<nat>, free: seq<nat>, h: nat, b: Buffer, next: nat, max: nat)
    requires Pools(bufs, lru, free) && |bufs| <= max && |lru| < max && (h in free || (free == [] && h == next)) && Below(bufs, next)
    ensures h in bufs <==> h in free
    ensures |bufs[h := b]| <= max && Below(bufs[h := b], if h in bufs then next else next + 1)
  {
    if h in free {
      assert (bufs[h := b]).Keys == bufs.Keys;
    } else {
      PoolSize(bufs, lru, free);
      assert (bufs[h := b]).Keys == bufs.Keys + {h};
    }
  }

  /** A free buffer leaves room among those in use. */
  lemma PoolRoom(bufs: Buffers, lru: seq<nat>, free: seq<nat>, max: nat)
    requires Pools(bufs, lru, free) && |bufs| <= max
    ensures free != [] ==> |lru| < max
  {
    if free != [] {
      MembersSize(lru);
      var h := free[0];
      assert h in free;
      forall x | x in Members(lru)
        ensures x in bufs.Keys - {h}
      {
        MembersAre(lru, x);
      }
      SubsetSize(Members(lru), bufs.Keys - {h});
    }
  }

  /** What an empty buffer's sector holds is on the disk. */
  lemma OnDisk(bufs: Buffers, lru: seq<nat>, free: seq<nat>, disk: Disk, flat: Disk, h: nat)
    requires Refines(bufs, disk, flat) && OnePer(bufs, lru) && Pools(bufs, lru, free) && h in lru && h in bufs && bufs[h].state == Inval
    ensures At(disk, bufs[h].sector) == At(flat, bufs[h].sector)
  {
    var s := bufs[h].sector;
    if Unsaved(bufs, s) {
      var g :| g in bufs && bufs[g].sector == s && (bufs[g].state == Dirty || bufs[g].state == Journaled);
      InUse(bufs, lru, free, g);
    }
  }

  lemma Bucket(bufs: Buffers, lru: seq<nat>, table: seq<seq<nat>>, hash: nat -> nat, sector: nat)
    requires Hashed(bufs, lru, table, hash)
    ensures hash(sector) < BUCKETS == |table|
  {
  }

  lemma PoolFacts(bufs: Buffers, lru: seq<nat>, free: seq<nat>)
    requires Pools(bufs, lru, free)
    ensures Unique(lru) && Unique(free) && (forall h :: h in lru ==> h in bufs) && (forall h :: h in free ==> h in bufs && h !in lru && bufs[h].state == Inval && bufs[h].count == 0)
  {
  }

  /** Taking out one element leaves the later ones. */
  /** Part of the way through the list: those gone have left it, in order, and those to come are as they
      were. */
  ghost predicate Halfway(was: Buffers, bufs: Buffers, all: seq<nat>, lru: seq<nat>, gone: seq<nat>, i: nat) {
    && Unique(all) && (forall g :: g in lru ==> g in all) && |lru| <= |all|
    && (forall k :: i <= k < |all| ==> all[k] in lru && all[k] in was && all[k] in bufs && bufs[all[k]] == was[all[k]])
    && lru == MinusAll(all, gone) && (gone == [] ==> bufs == was)
  }

  lemma NoneGone(bufs: Buffers, all: seq<nat>, n: nat)
    requires Unique(all) && forall h :: h in all ==> h in bufs
    ensures FirstIdle(bufs, all[..0], n) == [] && Halfway(bufs, bufs, all, all, [], 0)
  {
  }

  lemma AtHalf(was: Buffers, bufs: Buffers, all: seq<nat>, lru: seq<nat>, gone: seq<nat>, i: nat)
    requires Halfway(was, bufs, all, lru, gone, i) && i < |all|
    ensures all[i] in lru && all[i] in was && all[i] in bufs && bufs[all[i]] == was[all[i]]
  {
  }

  lemma OneStays(was: Buffers, bufs: Buffers, all: seq<nat>, lru: seq<nat>, gone: seq<nat>, i: nat)
    requires Halfway(was, bufs, all, lru, gone, i) && i < |all|
    ensures Halfway(was, bufs, all, lru, gone, i + 1)
  {
  }

  lemma OneGone(was: Buffers, bufs: Buffers, all: seq<nat>, lru: seq<nat>, gone: seq<nat>, i: nat, b: Buffer)
    requires Halfway(was, bufs, all, lru, gone, i) && i < |all| && Unique(lru)
    ensures Halfway(was, bufs[all[i] := b], all, Minus(lru, all[i]), gone + [all[i]], i + 1)
  {
    hide Minus, MinusAll;
    StillThere(all, lru, i);
    MinusMore(all, gone, all[i]);
  }

  lemma EndHalf(was: Buffers, bufs: Buffers, all: seq<nat>, lru: seq<nat>, gone: seq<nat>, i: nat, n: nat)
    requires Halfway(was, bufs, all, lru, gone, i)
    ensures (forall g :: g in lru ==> g in all) && |lru| <= |all| && lru == MinusAll(all, gone)
    ensures gone == [] ==> lru == all && bufs == was
    ensures n > 0 && FirstIdle(was, all, n) == [] ==> forall h :: h in all && h in was ==> was[h].count > 0 || was[h].state in {Dirty, Journaled}
  {
    if n > 0 && FirstIdle(was, all, n) == [] {
      NoneIdle(was, all, n);
      forall h | h in all && h in was
        ensures was[h].count > 0 || was[h].state in {Dirty, Journaled}
      {
        assert !Idle(was, h) && (was[h].state.Inval? || was[h].state.Clean? || was[h].state.Dirty? || was[h].state.Journaled?);
      }
    }
  }

  lemma {:induction false} NoneIdle(bufs: Buffers, list: seq<nat>, n: nat)
    requires n > 0 && FirstIdle(bufs, list, n) == []
    ensures forall h :: h in list ==> !Idle(bufs, h)
  {
    if list != [] {
      NoneIdle(bufs, list[..|list| - 1], n);
    }
  }

  lemma StillThere(all: seq<nat>, lru: seq<nat>, i: nat)
    requires i < |all| && Unique(all) && Unique(lru) && forall k :: i <= k < |all| ==> all[k] in lru
    ensures forall k :: i < k < |all| ==> all[k] in Minus(lru, all[i])
    ensures forall g :: g in Minus(lru, all[i]) ==> g in lru
    ensures |Minus(lru, all[i])| <= |lru|
  {
    MinusOnly(lru, all[i]);
  }

  lemma PlacedSame(bufs: Buffers, lru: seq<nat>, free: seq<nat>, table: seq<seq<nat>>, hash: nat -> nat, h: nat, b: Buffer)
    requires Pools(bufs, lru, free) && Hashed(bufs, lru, table, hash) && OnePer(bufs, lru) && h in bufs && b.sector == bufs[h].sector
    requires h in free ==> b == bufs[h]
    ensures Pools(bufs[h := b], lru, free) && Hashed(bufs[h := b], lru, table, hash) && OnePer(bufs[h := b], lru)
    ensures |bufs[h := b]| == |bufs| && (bufs[h := b]).Keys == bufs.Keys
  {
    HashedSame(bufs, lru, table, hash, h, b);
    hide Hashed, OnePer;
    assert (bufs[h := b]).Keys == bufs.Keys;
  }

  lemma NotFree(bufs: Buffers, lru: seq<nat>, free: seq<nat>, h: nat)
    requires Pools(bufs, lru, free) && h in lru
    ensures h !in free
  {
  }

  lemma RefinesAt(bufs: Buffers, disk: Disk, flat: Disk, h: nat)
    requires Refines(bufs, disk, flat) && h in bufs && bufs[h].state != Inval
    ensures bufs[h].data == At(flat, bufs[h].sector)
  {
  }

  /** Storing what is there already. */
  lemma StoredSame(bufs: Buffers, disk: Disk, flat: Disk, s: nat)
    requires Refines(bufs, disk, flat[s := At(flat, s)])
    ensures Refines(bufs, disk, flat)
  {
    assert forall t :: At(flat[s := At(flat, s)], t) == At(flat, t);
  }

  lemma CountedRefines(bufs: Buffers, disk: Disk, flat: Disk, h: nat, b: Buffer)
    requires Refines(bufs, disk, flat) && h in bufs && b == bufs[h].(count := b.count)
    ensures Refines(bufs[h := b], disk, flat)
  {
    forall s | At(flat, s) != At(disk, s)
      ensures Unsaved(bufs[h := b], s)
    {
      UnsavedOther(bufs, h, b, s);
    }
  }
}
