/** The snapshot server: every request, as it changes the tree, the store and the volumes. */
module Snapshots {
  import opened Exceptions
  import opened Sharing
  import opened Ledger
  import opened Volume
  import opened Devices
  import opened TreeSpec
  import opened ExceptionTree
  import opened Cardinality
  import TreeLookup
  import Walker

  /** Free chunks kept back for index blocks. */
  const RESERVE := 10

  /** Chunks that the copy buffer holds. */
  const BATCH := 32

  const MAX_SNAPSHOTS := 64

  datatype Snap = Snap(tag: nat, bit: nat)

  ghost function Bits(snaps: seq<Snap>): Mask {
    if snaps == [] then {} else Bits(snaps[..|snaps| - 1]) + {snaps[|snaps| - 1].bit}
  }

  ghost function Tags(snaps: seq<Snap>): set<nat> {
    if snaps == [] then {} else Tags(snaps[..|snaps| - 1]) + {snaps[|snaps| - 1].tag}
  }

  /** Each snapshot has its own tag and bit, and the mask has exactly those bits. */
  ghost predicate Listed(snaps: seq<Snap>, mask: Mask, tags: set<nat>) {
    && (forall i, j :: 0 <= i < j < |snaps| ==> snaps[i].tag != snaps[j].tag && snaps[i].bit != snaps[j].bit)
    && mask == Bits(snaps) && tags == Tags(snaps) && forall b :: b in mask ==> b < MAX_SNAPSHOTS
  }

  lemma {:induction false} InList(snaps: seq<Snap>, i: nat)
    requires i < |snaps|
    ensures snaps[i].bit in Bits(snaps) && snaps[i].tag in Tags(snaps)
  {
    if i < |snaps| - 1 {
      InList(snaps[..|snaps| - 1], i);
    }
  }

  lemma {:induction false} OfTag(snaps: seq<Snap>, t: nat) returns (i: nat)
    requires t in Tags(snaps)
    ensures i < |snaps| && snaps[i].tag == t
  {
    if t == snaps[|snaps| - 1].tag {
      i := |snaps| - 1;
    } else {
      i := OfTag(snaps[..|snaps| - 1], t);
    }
  }

  lemma {:induction false} BitCount(snaps: seq<Snap>)
    ensures |Bits(snaps)| <= |snaps|
  {
    if snaps != [] {
      BitCount(snaps[..|snaps| - 1]);
    }
  }

  lemma {:induction false} TagCount(snaps: seq<Snap>)
    requires forall i, j :: 0 <= i < j < |snaps| ==> snaps[i].tag != snaps[j].tag
    ensures |Tags(snaps)| == |snaps|
  {
    if snaps != [] {
      var n := |snaps| - 1;
      TagCount(snaps[..n]);
      if snaps[n].tag in Tags(snaps[..n]) {
        var i := OfTag(snaps[..n], snaps[n].tag);
      }
    }
  }

  /** Every snapshot finds what it is supposed to be. */
  ghost predicate Faithful(es: Entries, data: Disk, origin: Disk, snaps: seq<Snap>, views: map<nat, Disk>) {
    forall i :: 0 <= i < |snaps| ==> snaps[i].tag in views && Shows(es, data, origin, snaps[i].bit, views[snaps[i].tag])
  }

  ghost predicate Shows(es: Entries, data: Disk, origin: Disk, bit: nat, view: Disk) {
    forall c :: Seen(es, data, origin, bit, c) == At(view, c)
  }

  /** Every chunk of the space is free, an index or leaf block, or some version's place. */
  ghost predicate Divided(space: set<nat>, free: set<nat>, blocks: set<nat>, used: set<nat>) {
    && space == free + blocks + used && free !! blocks && free !! used && blocks !! used
    && forall a :: a in space ==> 0 < a < HIGH
  }

  /** No waiting copy fills a place that the request may still copy from. */
  ghost predicate Quiet(es: Entries, writer: Writer, dest: nat, n: nat) {
    writer.Snapshot? ==>
      forall c, k :: 0 <= k < |Lookup(es, c)| && dest <= Lookup(es, c)[k].chunk < dest + n ==> Lookup(es, c)[k].share == {writer.bit}
  }

  /** Chunks that the origin could change, it can still change. */
  ghost predicate StaysReady(es: Entries, mask: Mask, es': Entries, mask': Mask) {
    forall c :: Ready(es, c, Origin, mask) ==> Ready(es', c, Origin, mask')
  }

  /** The test before a chunk is copied. */
  predicate Room(free: nat, levels: nat) {
    free > RESERVE && free > levels + 2
  }

  /** Room for `n` copies, even if each of them splits every block on its way and adds a level. */
  predicate Plenty(free: nat, levels: nat, n: nat) {
    n > 0 ==> Room(free, levels) && Plenty(free - (levels + 3), levels + 1, n - 1)
  }

  lemma {:induction false} PlentyMore(free: nat, levels: nat, n: nat, free': nat, levels': nat)
    requires Plenty(free, levels, n) && free <= free' && levels' <= levels
    ensures Plenty(free', levels', n)
  {
    if n > 0 {
      PlentyMore(free - (levels + 3), levels + 1, n - 1, free' - (levels' + 3), levels' + 1);
    }
  }

  lemma PlentyRoom(free: nat, levels: nat, n: nat)
    requires Plenty(free, levels, n) && n > 0
    ensures Room(free, levels)
  {
  }

  /** The most that `n` copies take. */
  function Spent(levels: nat, n: nat): nat {
    if n == 0 then 0 else Spent(levels, n - 1) + (levels + n - 1) + 3
  }

  /** Where some copies have been made, there is room for the rest. */
  lemma {:induction false} PlentyAfter(free: nat, levels: nat, n: nat, made: nat, free': nat, levels': nat)
    requires Plenty(free, levels, n) && made <= n && free <= free' + Spent(levels, made) && levels' <= levels + made
    ensures Plenty(free', levels', n - made)
  {
    if made == 0 {
      PlentyMore(free, levels, n, free', levels');
    } else {
      var left, l := free' + (levels + made - 1) + 3, levels + made - 1;
      PlentyAfter(free, levels, n, made - 1, left, l);
      PlentyMore(left - (l + 3), l + 1, n - made, free', levels');
    }
  }

  /** What a request needs, but for room in the store. */
  predicate Allowed(op: Op, v: View) {
    match op
    case Create(tag) => |v.snaps| < MAX_SNAPSHOTS && tag !in v.snaps
    case Delete(tag) => tag in v.snaps
    case SnapshotWrite(tag, _, _) => tag in v.snaps
    case OriginWrite(_, _) => true
  }

  /** How many chunks a request may copy. */
  function Copies(op: Op): nat {
    if op.OriginWrite? || op.SnapshotWrite? then |op.chunks| else 0
  }

  function AllCopies(ops: seq<Op>): nat {
    if ops == [] then 0 else AllCopies(ops[..|ops| - 1]) + Copies(ops[|ops| - 1])
  }

  lemma CopiesNext(ops: seq<Op>, n: nat)
    requires n < |ops|
    ensures AllCopies(ops[..n + 1]) == AllCopies(ops[..n]) + Copies(ops[n])
  {
    assert ops[..n + 1][..n] == ops[..n];
  }

  /** Request `k` is granted only if it makes sense, and refused only if it does not or the store is
      not sure to have room for all that has been asked for so far. */
  ghost predicate Justified(v: View, free: nat, levels: nat, ops: seq<Op>, oks: seq<bool>, k: nat)
    requires k < |oks| <= |ops| && forall i :: 0 <= i < |ops| ==> WellFormed(ops[i])
  {
    var now := Outcome(v, ops[..k], oks[..k]);
    && (oks[k] ==> Allowed(ops[k], now))
    && (Allowed(ops[k], now) && Plenty(free, levels, AllCopies(ops[..k + 1])) ==> oks[k])
  }

  lemma JustifiedNext(v: View, free: nat, levels: nat, ops: seq<Op>, oks: seq<bool>, ok: bool)
    requires |oks| < |ops| && forall i :: 0 <= i < |ops| ==> WellFormed(ops[i])
    requires forall k :: 0 <= k < |oks| ==> Justified(v, free, levels, ops, oks, k)
    requires var n := |oks|; var now := Outcome(v, ops[..n], oks);
      (ok ==> Allowed(ops[n], now)) && (Allowed(ops[n], now) && Plenty(free, levels, AllCopies(ops[..n + 1])) ==> ok)
    ensures forall k :: 0 <= k <= |oks| ==> Justified(v, free, levels, ops, oks + [ok], k)
  {
    hide Allowed, Plenty, Outcome, AllCopies, WellFormed;
    forall k | 0 <= k <= |oks|
      ensures Justified(v, free, levels, ops, oks + [ok], k)
    {
      assert (oks + [ok])[..k] == oks[..k];
      if k < |oks| {
        assert Justified(v, free, levels, ops, oks, k);
      } else {
        assert oks[..k] == oks;
      }
    }
  }

  /** What two requests in a row take. */
  lemma {:induction false} SpentTwice(levels: nat, n: nat, levels': nat, m: nat)
    requires levels' <= levels + n
    ensures Spent(levels, n) + Spent(levels', m) <= Spent(levels, n + m)
  {
    if m > 0 {
      SpentTwice(levels, n, levels', m - 1);
    }
  }

  /** What is left when some of the free chunks picked have been used. */
  lemma {:induction false} LeftOver(free: set<nat>, sectors: seq<nat>)
    ensures |free - set s | s in sectors| >= |free| - |sectors|
  {
    if sectors != [] {
      var n := |sectors| - 1;
      LeftOver(free, sectors[..n]);
      assert free - (set s | s in sectors) == free - (set s | s in sectors[..n]) - {sectors[n]};
    }
  }

  // What a copy keeps

  lemma FaithfulCopy(es: Entries, data: Disk, origin: Disk, snaps: seq<Snap>, views: map<nat, Disk>, writer: Writer, active: Mask, chunk: nat, n: nat, tags: set<nat>)
    requires Faithful(es, data, origin, snaps, views) && Sorted(es) && n !in Used(es) && Listed(snaps, active, tags)
    ensures Faithful(WithException(es, chunk, n, writer, active), data[n := Fetched(From(es, writer, chunk), data, origin, chunk)], origin, snaps, views)
  {
    hide Seen, WithException, Used, From;
    var r, d := WithException(es, chunk, n, writer, active), data[n := Fetched(From(es, writer, chunk), data, origin, chunk)];
    forall i | 0 <= i < |snaps|
      ensures Shows(r, d, origin, snaps[i].bit, views[snaps[i].tag])
    {
      assert Shows(es, data, origin, snaps[i].bit, views[snaps[i].tag]);
      InList(snaps, i);
      forall c
        ensures Seen(r, d, origin, snaps[i].bit, c) == At(views[snaps[i].tag], c)
      {
        CopySeen(es, data, origin, writer, active, chunk, n, snaps[i].bit, c);
      }
    }
  }

  lemma QuietCopy(es: Entries, writer: Writer, active: Mask, chunk: nat, n: nat, dest: nat, count: nat, dest': nat, count': nat)
    requires Sorted(es) && Books(es, active) && n !in Used(es) && !Ready(es, chunk, writer, active) && Quiet(es, writer, dest, count)
    requires count' == 1 || (dest' == dest && count' == count + 1)
    requires dest' + count' == n + 1
    ensures Quiet(WithException(es, chunk, n, writer, active), writer, dest', count')
  {
    hide Lookup, WithException, WithVersion, Sole, Used, Addresses;
    if writer.Snapshot? {
      var r, list := WithException(es, chunk, n, writer, active), Lookup(es, chunk);
      forall c, k | 0 <= k < |Lookup(r, c)| && dest' <= Lookup(r, c)[k].chunk < dest' + count'
        ensures Lookup(r, c)[k].share == {writer.bit}
      {
        WithExceptionLookup(es, chunk, n, writer, active, c);
        LookupUsed(es, c);
        if c != chunk {
          InAddresses(Lookup(es, c), k);
        } else {
          QuietVersion(es, writer.bit, active, chunk, n, dest, count, dest', count', k);
        }
      }
    }
  }

  lemma InAddresses(list: seq<Exception>, k: nat)
    requires k < |list|
    ensures list[k].chunk in Addresses(list)
  {
  }

  lemma QuietVersion(es: Entries, bit: nat, active: Mask, chunk: nat, n: nat, dest: nat, count: nat, dest': nat, count': nat, k: nat)
    requires Quiet(es, Snapshot(bit), dest, count) && Addresses(Lookup(es, chunk)) <= Used(es) && n !in Used(es) && !Sole(Lookup(es, chunk), bit)
    requires count' == 1 || (dest' == dest && count' == count + 1)
    requires dest' + count' == n + 1
    requires var v := WithVersion(Lookup(es, chunk), n, Snapshot(bit), active); k < |v| && dest' <= v[k].chunk < dest' + count'
    ensures WithVersion(Lookup(es, chunk), n, Snapshot(bit), active)[k].share == {bit}
  {
    hide Lookup, Sole, Used, Addresses, Released;
    if k > 0 {
      var list := Lookup(es, chunk);
      var j := FirstShared(list, bit);
      ReleasedAt(list, j, bit);
      assert WithVersion(list, n, Snapshot(bit), active)[k] == Released(list, bit)[k - 1];
      InAddresses(list, k - 1);
      assert Released(list, bit)[k - 1].chunk == list[k - 1].chunk;
    }
  }

  lemma BoundedBooks(es: Entries, mask: Mask)
    requires Sorted(es) && Books(es, mask) && NoEmpties(es) && forall b :: b in mask ==> b < MAX_SNAPSHOTS
    ensures Bounded(es)
  {
    hide Books;
    Below(mask, MAX_SNAPSHOTS);
    forall i | 0 <= i < |es|
      ensures 1 <= |es[i].list| <= 64
    {
      EntriesProper(es, mask, i);
    }
  }

  lemma {:induction false} Below(mask: Mask, n: nat)
    requires forall b :: b in mask ==> b < n
    ensures |mask| <= n
  {
    if n > 0 {
      Below(mask - {n - 1}, n - 1);
    } else {
      assert mask == {};
    }
  }

  lemma TreeSorted(bt: Btree)
    requires bt.Valid()
    ensures Sorted(Contents(bt.tree)) && Foot(bt.tree) <= bt.store.Keys
  {
    TreeLookup.GoodOrdered(bt.store, bt.tree, bt.slots, bt.levels, 0, LIMIT);
    FootHeldGood(bt.store, bt.tree, bt.slots, bt.levels, 0, LIMIT);
  }

  lemma ListedBelow(snaps: seq<Snap>, mask: Mask, tags: set<nat>)
    requires Listed(snaps, mask, tags)
    ensures forall b :: b in mask ==> b < MAX_SNAPSHOTS
  {
  }

  lemma FreeUnused(space: set<nat>, free: set<nat>, blocks: set<nat>, used: set<nat>, n: nat)
    requires Divided(space, free, blocks, used) && n in free
    ensures n !in used && n !in blocks && 0 < n < HIGH
  {
  }

  lemma FreeSectors(space: set<nat>, free: set<nat>, store: TreeSpec.Store, used: set<nat>, sectors: seq<nat>, n: nat)
    requires Divided(space, free, store.Keys, used) && forall i :: 0 <= i < |sectors| ==> sectors[i] in free - {n}
    ensures forall i :: 0 <= i < |sectors| ==> sectors[i] !in store
  {
  }

  /** A version's place and some blocks taken from the free chunks. */
  lemma TakenFrom(space: set<nat>, free: set<nat>, blocks: set<nat>, used: set<nat>, n: nat, sectors: seq<nat>, k: nat)
    requires Divided(space, free, blocks, used) && n in free && k <= |sectors|
    requires forall i :: 0 <= i < |sectors| ==> sectors[i] in free - {n}
    ensures Divided(space, free - {n} - (set s | s in sectors[..k]), blocks + Taken(sectors, k), used + {n})
  {
    assert forall s :: s in sectors[..k] ==> s in free - {n};
  }

  /** The version to be copied is not itself waiting to be filled. */
  lemma QuietSource(es: Entries, writer: Writer, chunk: nat, active: Mask, dest: nat, n: nat, from: nat)
    requires Quiet(es, writer, dest, n) && !Ready(es, chunk, writer, active)
    requires from >= HIGH ==> writer.Snapshot? && Resolve(Lookup(es, chunk), writer.bit) == InStore(from - HIGH)
    ensures from >= HIGH ==> !(dest <= from - HIGH < dest + n)
  {
    hide Lookup, Resolve, Sole;
    if from >= HIGH {
      var k := FirstShared(Lookup(es, chunk), writer.bit);
      assert Lookup(es, chunk)[k].chunk == from - HIGH;
    }
  }

  /** What the new version changes for requests of the same kind. */
  lemma Settled(es: Entries, chunk: nat, n: nat, writer: Writer, active: Mask)
    requires Sorted(es) && Books(es, active) && n !in Used(es) && !Ready(es, chunk, writer, active)
    requires writer.Snapshot? ==> writer.bit in active
    ensures var r := WithException(es, chunk, n, writer, active);
      && (forall c :: Ready(es, c, writer, active) ==> Ready(r, c, writer, active) && Lookup(r, c) == Lookup(es, c))
      && (forall c :: Ready(es, c, Origin, active) ==> Ready(r, c, Origin, active))
      && Ready(r, chunk, writer, active)
      && (writer.Snapshot? ==> Resolve(Lookup(r, chunk), writer.bit) == InStore(n))
  {
    hide Lookup, Resolve, WithException, WithVersion, Ready, Books, Used;
    BooksAdded(es, chunk, n, writer, active);
    var r := WithException(es, chunk, n, writer, active);
    WithExceptionLookup(es, chunk, n, writer, active, chunk);
    if writer.Snapshot? {
      SnapshotVersionResolve(Lookup(es, chunk), n, writer.bit, active, writer.bit);
    }
    forall c | Ready(es, c, writer, active)
      ensures Ready(r, c, writer, active) && Lookup(r, c) == Lookup(es, c)
    {
      ReadyKept(es, chunk, n, writer, active, c);
      WithExceptionLookup(es, chunk, n, writer, active, c);
    }
    forall c | Ready(es, c, Origin, active)
      ensures Ready(r, c, Origin, active)
    {
      OriginReadyKept(es, chunk, n, writer, active, c);
    }
  }

  lemma NoneWaiting(data: Disk, origin: Disk, source: nat, dest: nat)
    ensures Copied(data, origin, source, dest, 0) == data
  {
  }

  lemma FaithfulOrigin(es: Entries, data: Disk, origin: Disk, snaps: seq<Snap>, views: map<nat, Disk>, active: Mask, tags: set<nat>, chunk: nat, v: Data)
    requires Faithful(es, data, origin, snaps, views) && Listed(snaps, active, tags) && Ready(es, chunk, Origin, active)
    ensures Faithful(es, data, origin[chunk := v], snaps, views)
  {
    hide Seen, Ready;
    forall i | 0 <= i < |snaps|
      ensures Shows(es, data, origin[chunk := v], snaps[i].bit, views[snaps[i].tag])
    {
      assert Shows(es, data, origin, snaps[i].bit, views[snaps[i].tag]);
      InList(snaps, i);
      forall c
        ensures Seen(es, data, origin[chunk := v], snaps[i].bit, c) == At(views[snaps[i].tag], c)
      {
        OriginWriteSeen(es, data, origin, active, chunk, v, snaps[i].bit, c);
      }
    }
  }

  lemma NothingQuiet(es: Entries, writer: Writer, dest: nat)
    ensures Quiet(es, writer, dest, 0)
  {
  }

  lemma FaithfulSnapshot(es: Entries, data: Disk, origin: Disk, snaps: seq<Snap>, views: map<nat, Disk>, active: Mask, tags: set<nat>, s: nat, chunk: nat, v: Data)
    requires Faithful(es, data, origin, snaps, views) && Listed(snaps, active, tags) && Books(es, active) && s < |snaps|
    requires snaps[s].tag in views && Ready(es, chunk, Snapshot(snaps[s].bit), active)
    ensures Resolve(Lookup(es, chunk), snaps[s].bit).InStore?
    ensures Faithful(es, data[Resolve(Lookup(es, chunk), snaps[s].bit).address := v], origin, snaps, views[snaps[s].tag := Put(views[snaps[s].tag], chunk, v)])
  {
    hide Seen, Ready, Books, Lookup, Resolve;
    var bit, tag := snaps[s].bit, snaps[s].tag;
    SoleWriteSeen(es, data, origin, active, bit, chunk, v, bit, chunk);
    var d, views' := data[Resolve(Lookup(es, chunk), bit).address := v], views[tag := Put(views[tag], chunk, v)];
    forall i | 0 <= i < |snaps|
      ensures snaps[i].tag in views' && Shows(es, d, origin, snaps[i].bit, views'[snaps[i].tag])
    {
      assert Shows(es, data, origin, snaps[i].bit, views[snaps[i].tag]);
      forall c
        ensures Seen(es, d, origin, snaps[i].bit, c) == At(views'[snaps[i].tag], c)
      {
        SoleWriteSeen(es, data, origin, active, bit, chunk, v, snaps[i].bit, c);
      }
    }
  }

  // Snapshots coming and going

  lemma FaithfulCreate(es: Entries, data: Disk, origin: Disk, snaps: seq<Snap>, views: map<nat, Disk>, mask: Mask, s: Snap)
    requires Faithful(es, data, origin, snaps, views) && Books(es, mask) && s.tag !in views && s.bit !in mask
    ensures Faithful(es, data, origin, snaps + [s], views[s.tag := origin])
  {
    hide Seen, Books;
    var r, views' := snaps + [s], views[s.tag := origin];
    forall i | 0 <= i < |r|
      ensures r[i].tag in views' && Shows(es, data, origin, r[i].bit, views'[r[i].tag])
    {
      if i < |snaps| {
        assert Shows(es, data, origin, snaps[i].bit, views[snaps[i].tag]);
      } else {
        forall c
          ensures Seen(es, data, origin, s.bit, c) == At(origin, c)
        {
          NewSeen(es, data, origin, mask, s.bit, c);
        }
      }
    }
  }

  lemma ListedCreate(snaps: seq<Snap>, mask: Mask, tags: set<nat>, s: Snap)
    requires Listed(snaps, mask, tags) && s.tag !in tags && s.bit !in mask && s.bit < MAX_SNAPSHOTS
    ensures Listed(snaps + [s], mask + {s.bit}, tags + {s.tag})
  {
    var r := snaps + [s];
    assert r[..|r| - 1] == snaps;
    forall i, j | 0 <= i < j < |r|
      ensures r[i].tag != r[j].tag && r[i].bit != r[j].bit
    {
      InList(snaps, i);
    }
  }

  lemma {:induction false} SplitList(snaps: seq<Snap>, k: nat)
    requires k < |snaps|
    ensures Bits(snaps) == Bits(snaps[..k] + snaps[k + 1..]) + {snaps[k].bit}
    ensures Tags(snaps) == Tags(snaps[..k] + snaps[k + 1..]) + {snaps[k].tag}
  {
    var n, rest := |snaps| - 1, snaps[..k] + snaps[k + 1..];
    assert snaps == snaps[..n] + [snaps[n]];
    hide Bits, Tags;
    ListEnd(snaps[..n], snaps[n]);
    if k == n {
      assert rest == snaps[..n];
    } else {
      SplitList(snaps[..n], k);
      var less := snaps[..n][..k] + snaps[..n][k + 1..];
      assert rest == less + [snaps[n]];
      ListEnd(less, snaps[n]);
    }
  }

  lemma ListEnd(snaps: seq<Snap>, s: Snap)
    ensures Bits(snaps + [s]) == Bits(snaps) + {s.bit} && Tags(snaps + [s]) == Tags(snaps) + {s.tag}
  {
    assert (snaps + [s])[..|snaps|] == snaps;
  }

  lemma ListedDelete(snaps: seq<Snap>, mask: Mask, tags: set<nat>, k: nat)
    requires Listed(snaps, mask, tags) && k < |snaps|
    ensures Listed(snaps[..k] + snaps[k + 1..], mask - {snaps[k].bit}, tags - {snaps[k].tag})
  {
    var rest := snaps[..k] + snaps[k + 1..];
    SplitList(snaps, k);
    assert forall i :: 0 <= i < |rest| ==> rest[i] == snaps[if i < k then i else i + 1];
    if snaps[k].bit in Bits(rest) {
      var i := OfBit(rest, snaps[k].bit);
    }
    if snaps[k].tag in Tags(rest) {
      var i := OfTag(rest, snaps[k].tag);
    }
  }

  lemma {:induction false} OfBit(snaps: seq<Snap>, b: nat) returns (i: nat)
    requires b in Bits(snaps)
    ensures i < |snaps| && snaps[i].bit == b
  {
    if b == snaps[|snaps| - 1].bit {
      i := |snaps| - 1;
    } else {
      i := OfBit(snaps[..|snaps| - 1], b);
    }
  }

  lemma FaithfulDelete(es: Entries, data: Disk, origin: Disk, snaps: seq<Snap>, views: map<nat, Disk>, mask: Mask, k: nat)
    requires Faithful(es, data, origin, snaps, views) && Listed(snaps, mask, views.Keys) && Sorted(es) && k < |snaps|
    ensures Faithful(WithoutSnapshots(es, {snaps[k].bit}), data, origin, snaps[..k] + snaps[k + 1..], views - {snaps[k].tag})
  {
    hide Seen, WithoutSnapshots;
    var gone, rest, r := {snaps[k].bit}, snaps[..k] + snaps[k + 1..], WithoutSnapshots(es, {snaps[k].bit});
    forall i | 0 <= i < |rest|
      ensures rest[i].tag in views - {snaps[k].tag} && Shows(r, data, origin, rest[i].bit, (views - {snaps[k].tag})[rest[i].tag])
    {
      var j := if i < k then i else i + 1;
      assert rest[i] == snaps[j];
      assert Shows(es, data, origin, snaps[j].bit, views[snaps[j].tag]);
      forall c
        ensures Seen(r, data, origin, rest[i].bit, c) == At(views[rest[i].tag], c)
      {
        RemovalSeen(es, data, origin, gone, rest[i].bit, c);
      }
    }
  }

  lemma StaysReadySelf(es: Entries, mask: Mask)
    ensures StaysReady(es, mask, es, mask)
  {
  }

  /** Without snapshot `k`, the others see what they saw. */
  lemma ViewsKept(es: Entries, data: Disk, origin: Disk, snaps: seq<Snap>, views: map<nat, Disk>, mask: Mask, k: nat)
    requires Faithful(es, data, origin, snaps, views) && Listed(snaps, mask, views.Keys) && Sorted(es) && Books(es, mask) && k < |snaps|
    ensures var r, rest, left := WithoutSnapshots(es, {snaps[k].bit}), snaps[..k] + snaps[k + 1..], views - {snaps[k].tag};
      && Faithful(r, data, origin, rest, left) && Listed(rest, mask - {snaps[k].bit}, left.Keys)
      && Books(r, mask - {snaps[k].bit}) && StaysReady(es, mask, r, mask - {snaps[k].bit})
  {
    hide Faithful, Listed, Books, Ready, WithoutSnapshots;
    var bit := snaps[k].bit;
    FaithfulDelete(es, data, origin, snaps, views, mask, k);
    ListedDelete(snaps, mask, views.Keys, k);
    assert (views - {snaps[k].tag}).Keys == views.Keys - {snaps[k].tag};
    BooksRemoved(es, {bit}, mask);
    forall c | Ready(es, c, Origin, mask)
      ensures Ready(WithoutSnapshots(es, {bit}), c, Origin, mask - {bit})
    {
      OriginReadyLeft(es, {bit}, mask, c);
    }
  }

  /** What the walk frees goes back to the free chunks. */
  lemma DividedDelete(space: set<nat>, free: set<nat>, blocks: set<nat>, used: set<nat>, blocks': set<nat>, used': set<nat>, freed: set<nat>)
    requires Divided(space, free, blocks, used) && blocks' <= blocks && used == used' + freed && used' !! freed
    ensures Divided(space, free + freed + (blocks - blocks'), blocks', used')
  {
  }

  lemma {:induction false} AllBits(mask: Mask, n: nat)
    requires forall b :: 0 <= b < n ==> b in mask
    ensures |mask| >= n
  {
    if n > 0 {
      AllBits(mask - {n - 1}, n - 1);
    }
  }

  lemma PlacesRemoved(es: Entries, gone: Mask, mask: Mask)
    requires Sorted(es) && Books(es, mask)
    ensures Used(es) == Used(WithoutSnapshots(es, gone)) + Set(AllOrphans(es, gone))
    ensures Used(WithoutSnapshots(es, gone)) !! Set(AllOrphans(es, gone)) && NoEmpties(WithoutSnapshots(es, gone))
  {
    hide Used, AllOrphans, WithoutSnapshots, Books, Unrepeated;
    forall i | 0 <= i < |es|
      ensures Unrepeated(es[i].list)
    {
      EntriesProper(es, mask, i);
    }
    UsedRemoved(es, gone);
    FreedUnused(es, gone, mask);
    WithoutSnapshotsBound(es, gone, -1);
  }

  lemma SetIs(s: seq<nat>, t: set<nat>)
    requires t == set x | x in s
    ensures Set(s) == t
  {
  }

  /** Every block of the store is still a block of the tree. */
  lemma AllBlocks(foot: set<nat>, foot': set<nat>, blocks: set<nat>)
    requires foot' <= blocks && blocks - foot' == foot - foot
    ensures foot' == blocks
  {
    assert blocks == (blocks - foot') + foot';
  }

  lemma Reclaimed(space: set<nat>, free: set<nat>, before: Store, after: Store, used: set<nat>, used': set<nat>, freed: seq<nat>, places: set<nat>, sectors: set<nat>)
    requires Divided(space, free, before.Keys, used) && after.Keys <= before.Keys && used == used' + Set(freed) && used' !! Set(freed)
    requires places == (set a | a in freed) && sectors == set s | s in before && s !in after
    ensures Divided(space, free + places + sectors, after.Keys, used') && |free + places + sectors| >= |free|
  {
    hide Divided, Set;
    SetIs(freed, places);
    assert sectors == before.Keys - after.Keys;
    DividedDelete(space, free, before.Keys, used, after.Keys, used', places);
    SubsetSize(free, free + places + sectors);
  }

  lemma NothingRecorded(origin: Disk, space: set<nat>, leaf: nat, node: nat)
    requires leaf != node && {leaf, node} <= space && forall a :: a in space ==> 0 < a < HIGH
    ensures Books([], {}) && NoEmpties([]) && Listed([], {}, {}) && Faithful([], map[], origin, [], map[])
    ensures Divided(space, space - {leaf, node}, {leaf, node}, Used([]))
  {
  }

  class Server {
    const bt: Btree
    /** The devices. */
    var origin: Disk
    var data: Disk
    /** The superblock's snapshots and the bits they use. */
    var snaps: seq<Snap>
    var mask: Mask
    /** Chunks that the allocator may hand out. */
    var free: set<nat>
    /** Copies put off: `copies` consecutive chunks. */
    var source: nat
    var dest: nat
    var copies: nat
    /** What the clients have been promised. */
    ghost var view: View
    ghost const space: set<nat>

    ghost function Versions(): Entries
      reads bt
    {
      Contents(bt.tree)
    }

    /** The store as it will be once the waiting copies are made. */
    ghost function Store(): Disk
      reads this
    {
      Copied(data, origin, source, dest, copies)
    }

    /** Masks are nonempty, disjoint and within the snapshots' bits, and places are distinct and
        accounted for. */
    ghost predicate Recorded()
      reads this, bt
    {
      && bt.Valid() && Foot(bt.tree) == bt.store.Keys
      && Books(Versions(), mask) && NoEmpties(Versions())
      && Divided(space, free, bt.store.Keys, Used(Versions()))
      && Listed(snaps, mask, view.snaps.Keys)
    }

    ghost predicate Sound()
      reads this, bt
    {
      && Recorded() && view.origin == origin
      && Faithful(Versions(), Store(), origin, snaps, view.snaps)
      && copies <= BATCH && (copies > 0 ==> source + copies - 1 < LIMIT || source >= HIGH)
    }

    /** Between requests nothing waits. */
    ghost predicate Valid()
      reads this, bt
    {
      Sound() && copies == 0
    }

    /** A new store over an existing origin: no snapshots, and a tree of one empty leaf. */
    constructor (origin: Disk, space: set<nat>, slots: nat, perNode: nat, leaf: nat, node: nat)
      requires slots >= 128 && perNode >= 2 && leaf != node && {leaf, node} <= space && forall a :: a in space ==> 0 < a < HIGH
      ensures Valid() && fresh(bt) && view == View(origin, map[]) && this.origin == origin && this.space == space
      ensures Versions() == [] && snaps == [] && mask == {} && free == space - {leaf, node} && bt.levels == 1
    {
      hide Books, Faithful, Listed, Divided, Used, Good, Fits, Foot, Contents, Copied, NoEmpties;
      bt := new Btree(slots, perNode, leaf, node);
      NothingRecorded(origin, space, leaf, node);
      NoneWaiting(map[], origin, 0, 0);
      this.origin, data, snaps, mask := origin, map[], [], {};
      free := space - {leaf, node};
      source, dest, copies := 0, 0, 0;
      view, this.space := View(origin, map[]), space;
      new;
      assert view.snaps.Keys == {};
    }

    /** Makes the waiting copies: reads them all, then writes them all. */
    method FinishCopyout()
      requires copies > 0 ==> source + copies - 1 < LIMIT || source >= HIGH
      modifies this`data, this`copies
      ensures data == old(Store()) && copies == 0
    {
      if copies == 0 {
        return;
      }
      var snap := source >= HIGH;
      var from := if snap then source - HIGH else source;
      var buffer := [];
      while |buffer| < copies
        invariant |buffer| <= copies
        invariant forall k :: 0 <= k < |buffer| ==> buffer[k] == Fetch(data, origin, source + k)
      {
        buffer := buffer + [At(if snap then data else origin, from + |buffer|)];
      }
      ghost var was := data;
      var i: nat := 0;
      while i < |buffer|
        invariant i <= |buffer| == copies && origin == old(origin) && source == old(source) && dest == old(dest)
        invariant data == Copied(was, origin, source, dest, i)
      {
        data := data[dest + i := buffer[i]];
        i := i + 1;
      }
      copies := 0;
    }

    /** Puts off a copy, together with those before it if it continues them. */
    method Copyout(chunk: nat, exception: nat)
      requires copies > 0 ==> source + copies - 1 < LIMIT || source >= HIGH
      requires chunk < LIMIT || (chunk >= HIGH && !(dest <= chunk - HIGH < dest + copies))
      requires copies <= BATCH
      modifies this`data, this`source, this`dest, this`copies
      ensures 0 < copies <= BATCH && (source + copies - 1 < LIMIT || source >= HIGH)
      ensures Store() == old(Store())[exception := Fetch(old(Store()), origin, chunk)]
      ensures dest + copies == exception + 1 && (copies == 1 || (dest == old(dest) && copies == old(copies) + 1))
      ensures old(source + copies == chunk && dest + copies == exception && copies < 32) ==> copies == old(copies) + 1 && data == old(data)
    {
      if chunk >= HIGH {
        CopiedAt(data, origin, source, dest, copies, chunk - HIGH);
      }
      if source + copies == chunk && dest + copies == exception && copies < BATCH {
        copies := copies + 1;
        return;
      }
      FinishCopyout();
      copies, source, dest := 1, chunk, exception;
      assert Copied(data, origin, source, dest, 0) == data;
    }
  
    /** Some free chunks, all different. */
    method Pick(n: nat) returns (sectors: seq<nat>)
      requires n <= |free|
      ensures |sectors| == n && (forall i :: 0 <= i < n ==> sectors[i] in free)
      ensures forall i, j :: 0 <= i < j < n ==> sectors[i] != sectors[j]
    {
      sectors := [];
      var rest := free;
      while |sectors| < n
        invariant |sectors| <= n && rest <= free && |rest| == |free| - |sectors|
        invariant forall i :: 0 <= i < |sectors| ==> sectors[i] in free && sectors[i] !in rest
        invariant forall i, j :: 0 <= i < j < |sectors| ==> sectors[i] != sectors[j]
      {
        var s :| s in rest;
        sectors, rest := sectors + [s], rest - {s};
      }
    }

    /** The request's chunk may now be changed without anybody else seeing it. */
    ghost predicate Granted(c: nat, writer: Writer)
      reads this, bt
    {
      Ready(Versions(), c, writer, mask)
    }

    ghost predicate AllGranted(chunks: seq<nat>, writer: Writer)
      reads this, bt
    {
      forall i :: 0 <= i < |chunks| ==> Granted(chunks[i], writer)
    }

    /** Records a copy of the chunk in the tree. */
    method AddVersion(chunk: nat, n: nat, writer: Writer)
      requires Recorded() && chunk < LIMIT && n in free && |free| > bt.levels + 2 && !Granted(chunk, writer)
      requires writer.Snapshot? ==> writer.bit in mask
      modifies this`free, bt
      ensures Recorded() && Versions() == WithException(old(Versions()), chunk, n, writer, mask)
      ensures |free| + old(bt.levels) + 3 >= old(|free|) && bt.levels <= old(bt.levels) + 1
    {
      hide Books, Faithful, Listed, Store, Foot, Contents, Used, Good, Fits, WithException, Divided, Apply, Sorted, NoEmpties, Bounded, Taken, Lookup, Copied;
      ghost var es, q := Versions(), Request(chunk, n, writer, mask);
      TreeSorted(bt);
      ListedBelow(snaps, mask, view.snaps.Keys);
      BoundedBooks(es, mask);
      WithExceptionNoEmpties(es, chunk, n, writer, mask);
      FreeUnused(space, free, bt.store.Keys, Used(es), n);
      UsedAdded(es, chunk, n, writer, mask);
      BooksAdded(es, chunk, n, writer, mask);
      Applied(es, q);
      free := free - {n};
      var sectors := Pick(bt.levels + 2);
      FreeSectors(space, old(free), bt.store, Used(es), sectors, n);
      var used := bt.AddException(Request(chunk, n, writer, mask), sectors);
      LeftOver(free, sectors[..used]);
      free := free - set s | s in sectors[..used];
      TakenFrom(space, old(free), old(bt.store.Keys), Used(es), n, sectors, used);
    }
  
    /** Whether the chunk may be changed as it is, and if not, where it is to be copied from. */
    method Ask(chunk: nat, writer: Writer) returns (unique: bool, from: nat, address: nat)
      requires Sound() && chunk < LIMIT
      ensures unique <==> Granted(chunk, writer)
      ensures forall disk: Disk :: Fetch(disk, origin, from) == Fetched(From(Versions(), writer, chunk), disk, origin, chunk)
      ensures from == chunk || (from >= HIGH && writer.Snapshot? && Resolve(Lookup(Versions(), chunk), writer.bit) == InStore(from - HIGH))
      ensures unique && writer.Snapshot? ==> Resolve(Lookup(Versions(), chunk), writer.bit) == InStore(address)
    {
      hide Books, Faithful, Listed, Store, Foot, Contents, Used, Good, Fits, Divided, Lookup, Copied, Resolve, Sole, AllShares;
      from, address := chunk, 0;
      match writer {
        case Origin =>
          unique := TreeLookup.OriginUnique(bt, chunk, mask);
        case Snapshot(bit) =>
          var place;
          unique, place := TreeLookup.SnapshotUnique(bt, chunk, bit);
          if place.InStore? {
            address := place.address;
            from := HIGH + address;
          }
          var k := FirstShared(Lookup(Versions(), chunk), bit);
      }
    }

    /** Gives the request its own copy of a chunk that is shared, unless there is no room. */
    method MakeUnique(chunk: nat, writer: Writer) returns (ok: bool, address: nat)
      requires Sound() && chunk < LIMIT && Quiet(Versions(), writer, dest, copies)
      requires writer.Snapshot? ==> writer.bit in mask
      modifies this`free, this`data, this`source, this`dest, this`copies, bt
      ensures Sound() && Quiet(Versions(), writer, dest, copies)
      ensures forall c :: old(Granted(c, writer)) ==> Granted(c, writer) && Lookup(Versions(), c) == old(Lookup(Versions(), c))
      ensures StaysReady(old(Versions()), old(mask), Versions(), mask)
      ensures ok ==> Granted(chunk, writer) && (writer.Snapshot? ==> Resolve(Lookup(Versions(), chunk), writer.bit) == InStore(address))
      ensures ok <==> Room(old(|free|), old(bt.levels))
      ensures old(bt.levels) <= 8 ==> (ok <==> old(|free|) > 10)
      ensures |free| + old(bt.levels) + 3 >= old(|free|) && bt.levels <= old(bt.levels) + 1
      ensures old(Granted(chunk, writer)) ==> free == old(free) && bt.levels == old(bt.levels)
    {
      hide Books, Faithful, Listed, Foot, Contents, Used, Good, Fits, Divided, Lookup, Copied, Resolve, Sole, AllShares, Quiet, WithException, NoEmpties;
      if !Room(|free|, bt.levels) {
        return false, 0;
      }
      ghost var es, was := Versions(), Store();
      var unique, from;
      unique, from, address := Ask(chunk, writer);
      if unique {
        return true, address;
      }
      var n :| n in free;
      TreeSorted(bt);
      FreeUnused(space, free, bt.store.Keys, Used(es), n);
      QuietSource(es, writer, chunk, mask, dest, copies, from);
      FaithfulCopy(es, was, origin, snaps, view.snaps, writer, mask, chunk, n, view.snaps.Keys);
      ghost var dest0, copies0 := dest, copies;
      Copyout(from, n);
      QuietCopy(es, writer, mask, chunk, n, dest0, copies0, dest, copies);
      AddVersion(chunk, n, writer);
      Settled(es, chunk, n, writer, mask);
      return true, n;
    }
  
    /** A client's write to the origin: every chunk is copied out for the snapshots that share it,
        and then the client writes. */
    method WriteOrigin(chunks: seq<nat>, values: seq<Data>) returns (ok: bool)
      requires Valid() && |chunks| == |values| && forall i :: 0 <= i < |chunks| ==> chunks[i] < LIMIT
      modifies this, bt
      ensures Valid()
      ensures view == if ok then Volume.After(old(view), OriginWrite(chunks, values)) else old(view)
      ensures if old(AllGranted(chunks, Origin)) then ok <==> chunks == [] || Room(old(|free|), old(bt.levels))
        else (Plenty(old(|free|), old(bt.levels), |chunks|) ==> ok) && (ok ==> Room(old(|free|), old(bt.levels)))
      ensures |free| + Spent(old(bt.levels), |chunks|) >= old(|free|) && bt.levels <= old(bt.levels) + |chunks|
    {
      hide Recorded, Faithful, Ready, Plenty;
      ok := true;
      ghost var all, plenty := AllGranted(chunks, Origin), Plenty(|free|, bt.levels, |chunks|);
      for i := 0 to |chunks|
        invariant Sound() && view == old(view) && origin == old(origin) && Quiet(Versions(), Origin, dest, copies)
        invariant ok ==> forall k :: 0 <= k < i ==> Granted(chunks[k], Origin)
        invariant all ==> AllGranted(chunks, Origin) && free == old(free) && bt.levels == old(bt.levels)
        invariant |free| + Spent(old(bt.levels), i) >= old(|free|) && bt.levels <= old(bt.levels) + i
        invariant plenty ==> ok
        invariant ok ==> i == 0 || Room(old(|free|), old(bt.levels))
        invariant i == 0 ==> ok && free == old(free) && bt.levels == old(bt.levels)
        invariant all && i > 0 ==> (ok <==> Room(old(|free|), old(bt.levels)))
      {
        if plenty {
          PlentyAfter(old(|free|), old(bt.levels), |chunks|, i, |free|, bt.levels);
          PlentyRoom(|free|, bt.levels, |chunks| - i);
        }
        var done, address := MakeUnique(chunks[i], Origin);
        ok := ok && done;
      }
      Flush();
      if ok {
        PutOrigin(chunks, values);
      }
    }

    /** The end of a request: the waiting copies are made. */
    method Flush()
      requires Sound()
      modifies this`data, this`copies
      ensures Valid()
    {
      hide Listed, Books, Divided, Faithful, Ready, NoEmpties, Used, Good, Fits, Foot, Contents, Copied;
      FinishCopyout();
      NoneWaiting(data, origin, source, dest);
    }

    method PutOrigin(chunks: seq<nat>, values: seq<Data>)
      requires Valid() && |chunks| == |values| && forall k :: 0 <= k < |chunks| ==> Granted(chunks[k], Origin)
      modifies this`origin, this`view
      ensures Valid() && view == old(view).(origin := Written(old(view).origin, chunks, values))
    {
      hide Listed, Books, Divided, Faithful, Ready, NoEmpties, Used, Good, Fits, Foot, Contents, Copied;
      NoneWaiting(data, origin, source, dest);
      for i := 0 to |chunks|
        invariant Recorded() && mask == old(mask) && snaps == old(snaps) && data == old(data) && view == old(view) && copies == 0
        invariant origin == Written(old(origin), chunks[..i], values[..i])
        invariant Faithful(Versions(), data, origin, snaps, view.snaps)
      {
        assert chunks[..i + 1][..i] == chunks[..i] && values[..i + 1][..i] == values[..i];
        FaithfulOrigin(Versions(), data, origin, snaps, view.snaps, mask, view.snaps.Keys, chunks[i], values[i]);
        origin := origin[chunks[i] := values[i]];
      }
      assert chunks[..|chunks|] == chunks && values[..|chunks|] == values;
      view := view.(origin := origin);
      NoneWaiting(data, origin, source, dest);
    }
  
    /** The snapshot with a tag. */
    method Find(tag: nat) returns (i: nat)
      requires Recorded()
      ensures i <= |snaps| && (i < |snaps| ==> snaps[i].tag == tag) && (i < |snaps| <==> tag in view.snaps)
      ensures forall k :: 0 <= k < |snaps| && snaps[k].tag == tag ==> k == i
    {
      i := 0;
      while i < |snaps| && snaps[i].tag != tag
        invariant i <= |snaps| && forall k :: 0 <= k < i ==> snaps[k].tag != tag
      {
        i := i + 1;
      }
      if i < |snaps| {
        InList(snaps, i);
      } else if tag in view.snaps {
        var k := OfTag(snaps, tag);
      }
    }

    /** A client's write to a snapshot: every chunk that it shares is copied, and then the client
        writes to the places it has been given. */
    method WriteSnapshot(tag: nat, chunks: seq<nat>, values: seq<Data>) returns (ok: bool)
      requires Valid() && |chunks| == |values| && forall i :: 0 <= i < |chunks| ==> chunks[i] < LIMIT
      modifies this, bt
      ensures Valid() && (ok ==> tag in old(view).snaps)
      ensures view == if ok then Volume.After(old(view), SnapshotWrite(tag, chunks, values)) else old(view)
      ensures StaysReady(old(Versions()), old(mask), Versions(), mask)
      ensures forall s :: 0 <= s < |old(snaps)| && old(snaps)[s].tag == tag ==>
        if old(AllGranted(chunks, Snapshot(snaps[s].bit))) then ok <==> chunks == [] || Room(old(|free|), old(bt.levels))
        else (Plenty(old(|free|), old(bt.levels), |chunks|) ==> ok) && (ok ==> Room(old(|free|), old(bt.levels)))
      ensures |free| + Spent(old(bt.levels), |chunks|) >= old(|free|) && bt.levels <= old(bt.levels) + |chunks|
    {
      hide Recorded, Faithful, Lookup, Resolve, Ready, Owned, Good, Fits, Copied, Written, Plenty, Room, AllGranted;
      var s := Find(tag);
      if s == |snaps| {
        return false;
      }
      SnapBit(bt, this, s);
      var addresses;
      ok, addresses := OwnCopies(snaps[s].bit, chunks);
      if ok {
        PutSnapshot(s, chunks, values, addresses);
      }
    }

    /** Gives a snapshot its own copy of each chunk, and says where. */
    method OwnCopies(bit: nat, chunks: seq<nat>) returns (ok: bool, addresses: seq<nat>)
      requires Valid() && bit in mask && forall i :: 0 <= i < |chunks| ==> chunks[i] < LIMIT
      modifies this`free, this`data, this`source, this`dest, this`copies, bt
      ensures Valid() && (ok ==> |addresses| == |chunks| && Owned(bit, chunks, addresses))
      ensures StaysReady(old(Versions()), old(mask), Versions(), mask)
      ensures if old(AllGranted(chunks, Snapshot(bit))) then ok <==> chunks == [] || Room(old(|free|), old(bt.levels))
        else (Plenty(old(|free|), old(bt.levels), |chunks|) ==> ok) && (ok ==> Room(old(|free|), old(bt.levels)))
      ensures |free| + Spent(old(bt.levels), |chunks|) >= old(|free|) && bt.levels <= old(bt.levels) + |chunks|
    {
      hide Recorded, Faithful, Ready, Quiet, Lookup, Resolve, Plenty;
      ghost var all, plenty := AllGranted(chunks, Snapshot(bit)), Plenty(|free|, bt.levels, |chunks|);
      NothingQuiet(Versions(), Snapshot(bit), dest);
      ok, addresses := true, [];
      for i := 0 to |chunks|
        invariant Sound() && Quiet(Versions(), Snapshot(bit), dest, copies) && |addresses| == i
        invariant ok ==> Owned(bit, chunks[..i], addresses)
        invariant StaysReady(old(Versions()), old(mask), Versions(), mask)
        invariant all ==> AllGranted(chunks, Snapshot(bit)) && free == old(free) && bt.levels == old(bt.levels)
        invariant |free| + Spent(old(bt.levels), i) >= old(|free|) && bt.levels <= old(bt.levels) + i
        invariant plenty ==> ok
        invariant ok ==> i == 0 || Room(old(|free|), old(bt.levels))
        invariant i == 0 ==> ok && free == old(free) && bt.levels == old(bt.levels)
        invariant all && i > 0 ==> (ok <==> Room(old(|free|), old(bt.levels)))
      {
        if plenty {
          PlentyAfter(old(|free|), old(bt.levels), |chunks|, i, |free|, bt.levels);
          PlentyRoom(|free|, bt.levels, |chunks| - i);
        }
        var done, address := MakeUnique(chunks[i], Snapshot(bit));
        assert chunks[..i + 1] == chunks[..i] + [chunks[i]];
        ok, addresses := ok && done, addresses + [address];
      }
      assert chunks[..|chunks|] == chunks;
      Flush();
    }

    /** Each chunk has a version that the snapshot shares with nobody, in the place given. */
    ghost predicate Owned(bit: nat, chunks: seq<nat>, addresses: seq<nat>)
      requires |chunks| == |addresses|
      reads this, bt
    {
      forall k :: 0 <= k < |chunks| ==> Granted(chunks[k], Snapshot(bit)) && Resolve(Lookup(Versions(), chunks[k]), bit) == InStore(addresses[k])
    }

    method PutSnapshot(s: nat, chunks: seq<nat>, values: seq<Data>, addresses: seq<nat>)
      requires Valid() && |chunks| == |values| == |addresses| && s < |snaps| && snaps[s].tag in view.snaps
      requires Owned(snaps[s].bit, chunks, addresses)
      modifies this`data, this`view
      ensures Valid()
      ensures view == var tag := snaps[s].tag; old(view).(snaps := old(view).snaps[tag := Written(old(view).snaps[tag], chunks, values)])
    {
      hide Listed, Books, Divided, Faithful, Ready, NoEmpties, Used, Good, Fits, Foot, Contents, Copied, Lookup, Resolve;
      NoneWaiting(data, origin, source, dest);
      ghost var tag, views := snaps[s].tag, view.snaps;
      assert views[tag := views[tag]] == views;
      for i := 0 to |chunks|
        invariant Recorded() && mask == old(mask) && snaps == old(snaps) && origin == old(origin) && view == old(view) && copies == 0
        invariant Faithful(Versions(), data, origin, snaps, views[tag := Written(views[tag], chunks[..i], values[..i])])
      {
        assert chunks[..i + 1][..i] == chunks[..i] && values[..i + 1][..i] == values[..i];
        ghost var now := views[tag := Written(views[tag], chunks[..i], values[..i])];
        FaithfulSnapshot(Versions(), data, origin, snaps, now, mask, view.snaps.Keys, s, chunks[i], values[i]);
        data := data[addresses[i] := values[i]];
        assert now[tag := Written(views[tag], chunks[..i + 1], values[..i + 1])] == views[tag := Written(views[tag], chunks[..i + 1], values[..i + 1])];
      }
      assert chunks[..|chunks|] == chunks && values[..|chunks|] == values;
      view := view.(snaps := views[tag := Written(views[tag], chunks, values)]);
      assert view.snaps.Keys == views.Keys;
      NoneWaiting(data, origin, source, dest);
    }

    /** A snapshot finds its data where its versions say. */
    lemma Finds(s: nat, chunk: nat)
      requires Valid() && s < |snaps|
      ensures snaps[s].tag in view.snaps
      ensures Fetched(Resolve(Lookup(Versions(), chunk), snaps[s].bit), data, origin, chunk) == At(view.snaps[snaps[s].tag], chunk)
    {
      hide Recorded, Lookup, Resolve;
      NoneWaiting(data, origin, source, dest);
      assert Shows(Versions(), data, origin, snaps[s].bit, view.snaps[snaps[s].tag]);
      assert Seen(Versions(), data, origin, snaps[s].bit, chunk) == At(view.snaps[snaps[s].tag], chunk);
    }

    /** What a client is told to read for a snapshot, and what it finds there. */
    method ReadSnapshot(tag: nat, chunk: nat) returns (found: bool, value: Data)
      requires Valid() && chunk < LIMIT
      ensures found <==> tag in view.snaps
      ensures found ==> value == At(view.snaps[tag], chunk)
    {
      hide Recorded, Lookup, Resolve;
      var s := Find(tag);
      if s == |snaps| {
        return false, 0;
      }
      SnapBit(bt, this, s);
      var unique, place := TreeLookup.SnapshotUnique(bt, chunk, snaps[s].bit);
      Finds(s, chunk);
      match place {
        case OnOrigin => return true, At(origin, chunk);
        case InStore(a) => return true, At(data, a);
      }
    }

    /** Creates a snapshot with a tag and the first bit not in use. */
    method CreateSnapshot(tag: nat) returns (ok: bool, bit: nat)
      requires Valid()
      modifies this`snaps, this`mask, this`view
      ensures Valid()
      ensures ok ==> bit !in old(mask) && (forall b :: 0 <= b < bit ==> b in old(mask)) && mask == old(mask) + {bit} && snaps == old(snaps) + [Snap(tag, bit)]
      ensures !ok ==> mask == old(mask) && snaps == old(snaps)
      ensures ok <==> |old(snaps)| < 64 && tag !in old(view).snaps
      ensures view == if ok then Volume.After(old(view), Create(tag)) else old(view)
    {
      hide Books, Divided, Faithful, NoEmpties, Used, Good, Fits, Foot, Contents, Copied, Bits, Tags;
      if |snaps| >= MAX_SNAPSHOTS {
        return false, 0;
      }
      var s := Find(tag);
      if s < |snaps| {
        return false, 0;
      }
      bit := 0;
      while bit < MAX_SNAPSHOTS && bit in mask
        invariant bit <= MAX_SNAPSHOTS && forall b :: 0 <= b < bit ==> b in mask
      {
        bit := bit + 1;
      }
      if bit == MAX_SNAPSHOTS {
        AllBits(mask, MAX_SNAPSHOTS);
        BitCount(snaps);
        return false, bit;
      }
      FaithfulCreate(Versions(), Store(), origin, snaps, view.snaps, mask, Snap(tag, bit));
      ListedCreate(snaps, mask, view.snaps.Keys, Snap(tag, bit));
      BooksWider(Versions(), mask, mask + {bit});
      assert (view.snaps[tag := view.origin]).Keys == view.snaps.Keys + {tag};
      snaps, mask := snaps + [Snap(tag, bit)], mask + {bit};
      view := view.(snaps := view.snaps[tag := view.origin]);
      ok := true;
    }

    /** Deletes a snapshot: it leaves the list, its bit leaves every version in the tree, and
        whatever nobody shares any more is free. */
    method DeleteSnapshot(tag: nat) returns (ok: bool)
      requires Valid() && bt.levels <= 2
      modifies this`snaps, this`mask, this`free, this`view, bt
      ensures Valid()
      ensures ok <==> tag in old(view).snaps
      ensures view == if ok then Volume.After(old(view), Delete(tag)) else old(view)
      ensures StaysReady(old(Versions()), old(mask), Versions(), mask)
      ensures |free| >= old(|free|) && bt.levels <= old(bt.levels)
    {
      hide Books, Divided, Faithful, Listed, StaysReady, NoEmpties, Used, Good, Fits, Foot, Contents, Copied, WithoutSnapshots, AllOrphans, Set;
      var k := Find(tag);
      if k == |snaps| {
        StaysReadySelf(Versions(), mask);
        return false;
      }
      TreeSorted(bt);
      ViewsKept(Versions(), Store(), origin, snaps, view.snaps, mask, k);
      var bit := snaps[k].bit;
      snaps := snaps[..k] + snaps[k + 1..];
      DropVersions(bit);
      mask, view := mask - {bit}, view.(snaps := view.snaps - {tag});
      return true;
    }

    /** Takes a bit out of every version, and frees what nobody shares any more. */
    method DropVersions(bit: nat)
      requires bt.Valid() && bt.levels <= 2 && Foot(bt.tree) == bt.store.Keys
      requires Books(Versions(), mask) && Divided(space, free, bt.store.Keys, Used(Versions()))
      modifies this`free, bt
      ensures bt.Valid() && Foot(bt.tree) == bt.store.Keys && bt.levels <= old(bt.levels) && |free| >= old(|free|)
      ensures Versions() == WithoutSnapshots(old(Versions()), {bit}) && NoEmpties(Versions())
      ensures Divided(space, free, bt.store.Keys, Used(Versions()))
    {
      hide Books, Divided, NoEmpties, Used, Good, Fits, Foot, Contents, WithoutSnapshots, AllOrphans, Set;
      ghost var es, foot := Versions(), Foot(bt.tree);
      var before := bt.store;
      TreeSorted(bt);
      PlacesRemoved(es, {bit}, mask);
      var freed := Walker.DeleteTree(bt, {bit});
      AllBlocks(foot, Foot(bt.tree), bt.store.Keys);
      var places, sectors := set a | a in freed, set s | s in before && s !in bt.store;
      Reclaimed(space, free, before, bt.store, Used(es), Used(Versions()), freed, places, sectors);
      free := free + places + sectors;
    }

    /** As many snapshots as the clients know of. */
    lemma SnapCount()
      requires Sound()
      ensures |view.snaps| == |snaps|
    {
      TagCount(snaps);
      assert |view.snaps| == |view.snaps.Keys|;
    }

    lemma ListedAt(tag: nat) returns (s: nat)
      requires Sound()
      ensures tag in view.snaps ==> s < |snaps| && snaps[s].tag == tag
    {
      s := 0;
      if tag in view.snaps {
        s := OfTag(snaps, tag);
      }
    }

    /** Between and within requests the clients' origin is the device. */
    lemma SoundOrigin()
      requires Sound()
      ensures view.origin == origin
    {
    }

    /** Any request. */
    method Perform(op: Op) returns (ok: bool)
      requires Valid() && WellFormed(op) && InRange(op) && (op.Delete? ==> bt.levels <= 2)
      modifies this, bt
      ensures Valid() && view == if ok then Volume.After(old(view), op) else old(view)
      ensures ok ==> Allowed(op, old(view))
      ensures Allowed(op, old(view)) && Plenty(old(|free|), old(bt.levels), Copies(op)) ==> ok
      ensures |free| + Spent(old(bt.levels), Copies(op)) >= old(|free|) && bt.levels <= old(bt.levels) + Copies(op)
    {
      hide Sound, Written, Plenty, Ready, StaysReady;
      SnapCount();
      if Copies(op) > 0 && Plenty(|free|, bt.levels, Copies(op)) {
        PlentyRoom(|free|, bt.levels, Copies(op));
      }
      match op {
        case Create(tag) =>
          var bit;
          ok, bit := CreateSnapshot(tag);
        case Delete(tag) => ok := DeleteSnapshot(tag);
        case OriginWrite(chunks, values) => ok := WriteOrigin(chunks, values);
        case SnapshotWrite(tag, chunks, values) =>
          ghost var s := ListedAt(tag);
          ok := WriteSnapshot(tag, chunks, values);
      }
    }

    /** Any run of requests, up to a deletion from a tree of more than two levels: the clients see
        exactly what the granted requests mean, and a request is refused only if it makes no sense or
        the store may be too full for the chunks that the run has copied. */
    method Run(ops: seq<Op>) returns (oks: seq<bool>)
      requires Valid() && forall i :: 0 <= i < |ops| ==> WellFormed(ops[i]) && InRange(ops[i])
      modifies this, bt
      ensures Valid() && |oks| <= |ops| && (|oks| < |ops| ==> ops[|oks|].Delete? && bt.levels > 2)
      ensures view == Outcome(old(view), ops[..|oks|], oks)
      ensures forall k :: 0 <= k < |oks| ==> Justified(old(view), old(|free|), old(bt.levels), ops, oks, k)
    {
      hide Sound, InRange, Allowed, Copies, AllCopies, Plenty, Spent, Justified;
      oks := [];
      while |oks| < |ops|
        invariant Valid() && |oks| <= |ops| && view == Outcome(old(view), ops[..|oks|], oks)
        invariant |free| + Spent(old(bt.levels), AllCopies(ops[..|oks|])) >= old(|free|) && bt.levels <= old(bt.levels) + AllCopies(ops[..|oks|])
        invariant forall k :: 0 <= k < |oks| ==> Justified(old(view), old(|free|), old(bt.levels), ops, oks, k)
      {
        if ops[|oks|].Delete? && bt.levels > 2 {
          return;
        }
        ghost var n, was, levels0 := |oks|, view, bt.levels;
        CopiesNext(ops, n);
        ghost var op, before := ops[n], AllCopies(ops[..n]);
        if Plenty(old(|free|), old(bt.levels), before + Copies(op)) {
          PlentyAfter(old(|free|), old(bt.levels), before + Copies(op), before, |free|, bt.levels);
        }
        var ok := Perform(ops[|oks|]);
        SpentTwice(old(bt.levels), before, levels0, Copies(op));
        assert ops[..n + 1][..n] == ops[..n];
        ghost var oks0 := oks;
        oks := oks + [ok];
        assert oks[..n] == oks[..|oks| - 1];
        JustifiedNext(old(view), old(|free|), old(bt.levels), ops, oks0, ok);
      }
    }
  }

  /** Request `n` is the last one granted that put something into a chunk of a snapshot, at position `k`. */
  ghost predicate LastWrite(ops: seq<Op>, oks: seq<bool>, n: nat, k: nat, tag: nat, chunk: nat)
    requires |oks| <= |ops|
  {
    && n < |oks| && oks[n] && WellFormed(ops[n]) && ops[n].SnapshotWrite? && ops[n].tag == tag && LastFor(ops[n].chunks, k) && ops[n].chunks[k] == chunk
    && forall i :: n < i < |oks| && oks[i] ==> Spares(ops[i], tag, chunk)
  }

  /** Request `n` created a snapshot, and nothing granted since has touched a chunk of it. */
  ghost predicate OnlyCreated(ops: seq<Op>, oks: seq<bool>, n: nat, tag: nat, chunk: nat)
    requires |oks| <= |ops|
  {
    n < |oks| && oks[n] && ops[n] == Create(tag) && forall i :: n < i < |oks| && oks[i] ==> Spares(ops[i], tag, chunk)
  }

  /** Request `m` is the last one granted before `n` that wrote a chunk of the origin, at position `k`. */
  ghost predicate LastOrigin(ops: seq<Op>, oks: seq<bool>, m: nat, k: nat, n: nat, chunk: nat)
    requires |oks| <= |ops|
  {
    && m < n <= |oks| && oks[m] && WellFormed(ops[m]) && ops[m].OriginWrite? && LastFor(ops[m].chunks, k) && ops[m].chunks[k] == chunk
    && forall i :: m < i < n && oks[i] ==> SparesOrigin(ops[i], chunk)
  }

  /** A read after any run of requests: what was last written there, or what was last written to the
      origin when the snapshot was created. */
  method RunAndRead(server: Server, ops: seq<Op>, tag: nat, chunk: nat) returns (oks: seq<bool>, found: bool, value: Data)
    requires server.Valid() && chunk < LIMIT && forall i :: 0 <= i < |ops| ==> WellFormed(ops[i]) && InRange(ops[i])
    modifies server, server.bt
    ensures |oks| <= |ops| && (|oks| < |ops| ==> ops[|oks|].Delete? && server.bt.levels > 2)
    ensures forall n: nat, k: nat :: LastWrite(ops, oks, n, k, tag, chunk) ==> found && value == ops[n].values[k]
    ensures forall n: nat, m: nat, k: nat :: OnlyCreated(ops, oks, n, tag, chunk) && LastOrigin(ops, oks, m, k, n, chunk) ==> found && value == ops[m].values[k]
  {
    hide Server.Sound, InRange, Justified, Spares, SparesOrigin;
    ghost var v, free, levels := server.view, |server.free|, server.bt.levels;
    oks := server.Run(ops);
    found, value := server.ReadSnapshot(tag, chunk);
    forall n: nat, k: nat | LastWrite(ops, oks, n, k, tag, chunk)
      ensures found && value == ops[n].values[k]
    {
      ReadsLast(v, free, levels, ops, oks, n, k, tag, chunk);
    }
    forall n: nat, m: nat, k: nat | OnlyCreated(ops, oks, n, tag, chunk) && LastOrigin(ops, oks, m, k, n, chunk)
      ensures found && value == ops[m].values[k]
    {
      ReadsCreated(v, ops, oks, n, m, k, tag, chunk);
    }
  }

  lemma ReadsLast(v: View, free: nat, levels: nat, ops: seq<Op>, oks: seq<bool>, n: nat, k: nat, tag: nat, chunk: nat)
    requires |oks| <= |ops| && (forall i :: 0 <= i < |ops| ==> WellFormed(ops[i])) && LastWrite(ops, oks, n, k, tag, chunk)
    requires Justified(v, free, levels, ops, oks, n)
    ensures var out := Outcome(v, ops[..|oks|], oks); tag in out.snaps && At(out.snaps[tag], chunk) == ops[n].values[k]
  {
    hide Outcome, WellFormed, Plenty, Spares, LastFor;
    assert ops[..|oks|][..n] == ops[..n];
    SnapshotReads(v, ops[..|oks|], oks, n, k);
  }

  lemma ReadsCreated(v: View, ops: seq<Op>, oks: seq<bool>, n: nat, m: nat, k: nat, tag: nat, chunk: nat)
    requires |oks| <= |ops| && (forall i :: 0 <= i < |ops| ==> WellFormed(ops[i]))
    requires OnlyCreated(ops, oks, n, tag, chunk) && LastOrigin(ops, oks, m, k, n, chunk)
    ensures var out := Outcome(v, ops[..|oks|], oks); tag in out.snaps && At(out.snaps[tag], chunk) == ops[m].values[k]
  {
    hide Outcome, WellFormed, Spares, SparesOrigin, LastFor;
    var done := ops[..|oks|];
    CreatedReads(v, done, oks, n, chunk);
    OriginReads(v, done, oks, m, k, n);
  }

  lemma SnapBit(bt: Btree, server: Server, s: nat)
    requires server.bt == bt && server.Sound() && s < |server.snaps|
    ensures server.snaps[s].bit in server.mask && bt.Valid() && server.snaps[s].tag in server.view.snaps
  {
    InList(server.snaps, s);
  }
}
