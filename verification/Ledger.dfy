/** What the tree as a whole says about the space in use. */
module Ledger {
  import opened Exceptions
  import opened Sharing

  /** The places of all versions of all chunks. */
  ghost function Used(es: Entries): set<nat> {
    if es == [] then {} else Addresses(es[0].list) + Used(es[1..])
  }

  /** Every chunk is properly shared, and no place serves twice. */
  ghost predicate Books(es: Entries, mask: Mask) {
    && (forall c :: Proper(Lookup(es, c), mask) && Unrepeated(Lookup(es, c)))
    && forall c, d :: c != d ==> Addresses(Lookup(es, c)) !! Addresses(Lookup(es, d))
  }

  lemma {:induction false} UsedAt(es: Entries, i: nat)
    requires i < |es|
    ensures Addresses(es[i].list) <= Used(es)
  {
    hide Addresses;
    if i > 0 {
      UsedAt(es[1..], i - 1);
    }
  }

  lemma LookupUsed(es: Entries, c: nat)
    ensures Addresses(Lookup(es, c)) <= Used(es)
  {
    var i := Position(es, c);
    if i < |es| {
      UsedAt(es, i);
    }
  }

  lemma {:induction false} UsedBy(es: Entries, a: nat) returns (i: nat)
    requires a in Used(es)
    ensures i < |es| && a in Addresses(es[i].list)
  {
    hide Addresses;
    if a in Addresses(es[0].list) {
      i := 0;
    } else {
      i := UsedBy(es[1..], a);
      i := i + 1;
    }
  }

  lemma UsedChunk(es: Entries, a: nat) returns (c: nat)
    requires Sorted(es) && a in Used(es)
    ensures a in Addresses(Lookup(es, c))
  {
    hide Addresses, Used, Lookup;
    var i := UsedBy(es, a);
    LookupAt(es, i);
    c := es[i].chunk;
  }

  /** A new version of one chunk. */
  lemma UsedAdded(es: Entries, chunk: nat, n: nat, writer: Writer, active: Mask)
    requires Sorted(es) && Books(es, active) && n !in Used(es)
    ensures Used(WithException(es, chunk, n, writer, active)) == Used(es) + {n}
  {
    hide Addresses, Used, Lookup, Proper, Unrepeated, WithException, WithVersion;
    var r := WithException(es, chunk, n, writer, active);
    LookupUsed(es, chunk);
    VersionAddresses(Lookup(es, chunk), n, writer, active);
    WithExceptionLookup(es, chunk, n, writer, active, chunk);
    forall a | a in Used(r)
      ensures a in Used(es) + {n}
    {
      var c := UsedChunk(r, a);
      WithExceptionLookup(es, chunk, n, writer, active, c);
      LookupUsed(es, c);
    }
    forall a | a in Used(es) + {n}
      ensures a in Used(r)
    {
      if a == n {
        LookupUsed(r, chunk);
      } else {
        var c := UsedChunk(es, a);
        WithExceptionLookup(es, chunk, n, writer, active, c);
        LookupUsed(r, c);
      }
    }
  }

  /** The request may go on without a copy. */
  ghost predicate Ready(es: Entries, c: nat, writer: Writer, active: Mask) {
    match writer
    case Origin => active <= AllShares(Lookup(es, c))
    case Snapshot(bit) => Sole(Lookup(es, c), bit)
  }

  lemma BooksAdded(es: Entries, chunk: nat, n: nat, writer: Writer, active: Mask)
    requires Sorted(es) && Books(es, active) && n !in Used(es) && !Ready(es, chunk, writer, active)
    requires writer.Snapshot? ==> writer.bit in active
    ensures var r := WithException(es, chunk, n, writer, active); Books(r, active) && Ready(r, chunk, writer, active)
  {
    hide Addresses, Used, Lookup, Proper, Unrepeated, WithException, WithVersion, AllShares, Sole;
    var r, list := WithException(es, chunk, n, writer, active), Lookup(es, chunk);
    LookupUsed(es, chunk);
    VersionAddresses(list, n, writer, active);
    match writer {
      case Origin => OriginVersion(list, n, active);
      case Snapshot(bit) => SnapshotVersion(list, n, bit, active);
    }
    WithExceptionLookup(es, chunk, n, writer, active, chunk);
    forall c
      ensures Proper(Lookup(r, c), active) && Unrepeated(Lookup(r, c))
    {
      WithExceptionLookup(es, chunk, n, writer, active, c);
    }
    forall c, d | c != d
      ensures Addresses(Lookup(r, c)) !! Addresses(Lookup(r, d))
    {
      WithExceptionLookup(es, chunk, n, writer, active, c);
      WithExceptionLookup(es, chunk, n, writer, active, d);
      LookupUsed(es, c);
      LookupUsed(es, d);
    }
  }

  lemma ReadyKept(es: Entries, chunk: nat, n: nat, writer: Writer, active: Mask, c: nat)
    requires Sorted(es) && Ready(es, c, writer, active) && !Ready(es, chunk, writer, active)
    ensures Ready(WithException(es, chunk, n, writer, active), c, writer, active) && c != chunk
  {
    hide Lookup, WithException, WithVersion, AllShares, Sole;
    WithExceptionLookup(es, chunk, n, writer, active, c);
  }

  // Snapshots removed

  lemma BooksRemoved(es: Entries, gone: Mask, mask: Mask)
    requires Sorted(es) && Books(es, mask)
    ensures Books(WithoutSnapshots(es, gone), mask - gone)
  {
    hide Addresses, Lookup, Proper, Unrepeated, WithoutSnapshots, Without;
    var r := WithoutSnapshots(es, gone);
    forall c
      ensures Proper(Lookup(r, c), mask - gone) && Unrepeated(Lookup(r, c))
    {
      WithoutSnapshotsLookup(es, gone, c);
      WithoutOrder(Lookup(es, c), gone, mask);
    }
    forall c, d | c != d
      ensures Addresses(Lookup(r, c)) !! Addresses(Lookup(r, d))
    {
      WithoutSnapshotsLookup(es, gone, c);
      WithoutSnapshotsLookup(es, gone, d);
      WithoutOrder(Lookup(es, c), gone, mask);
      WithoutOrder(Lookup(es, d), gone, mask);
    }
  }

  /** The places in use are divided into those still in use and those freed. */
  lemma {:induction false} UsedRemoved(es: Entries, gone: Mask)
    requires forall i :: 0 <= i < |es| ==> Unrepeated(es[i].list)
    ensures Used(es) == Used(WithoutSnapshots(es, gone)) + Set(AllOrphans(es, gone))
  {
    hide Addresses, Unrepeated, Without, Orphans;
    if es != [] {
      UsedRemoved(es[1..], gone);
      OrphansRest(es[0].list, gone);
      var kept, rest := Without(es[0].list, gone), WithoutSnapshots(es[1..], gone);
      UsedCons(Entry(es[0].chunk, kept), rest);
      assert [] + rest == rest;
      NoAddresses();
      SetConcat(Orphans(es[0].list, gone), AllOrphans(es[1..], gone));
    }
  }

  lemma UsedCons(e: Entry, rest: Entries)
    ensures Used([e] + rest) == Addresses(e.list) + Used(rest)
  {
    assert ([e] + rest)[1..] == rest;
  }

  lemma NoAddresses()
    ensures Addresses([]) == {}
  {
  }

  lemma SetConcat(a: seq<nat>, b: seq<nat>)
    ensures Set(a + b) == Set(a) + Set(b)
  {
  }

  lemma {:induction false} OrphanOf(es: Entries, gone: Mask, a: nat) returns (i: nat)
    requires a in AllOrphans(es, gone)
    ensures i < |es| && a in Orphans(es[i].list, gone)
  {
    if a in Orphans(es[0].list, gone) {
      i := 0;
    } else {
      i := OrphanOf(es[1..], gone, a);
      i := i + 1;
    }
  }

  /** Nothing that is freed is still in use. */
  lemma FreedUnused(es: Entries, gone: Mask, mask: Mask)
    requires Sorted(es) && Books(es, mask)
    ensures Used(WithoutSnapshots(es, gone)) !! Set(AllOrphans(es, gone))
  {
    hide Addresses, Used, Lookup, Proper, Unrepeated, WithoutSnapshots, Without, Orphans, AllOrphans;
    var r := WithoutSnapshots(es, gone);
    WithoutSnapshotsBound(es, gone, -1);
    forall a | a in Used(r)
      ensures a !in Set(AllOrphans(es, gone))
    {
      var c := UsedChunk(r, a);
      WithoutSnapshotsLookup(es, gone, c);
      OrphansRest(Lookup(es, c), gone);
      if a in AllOrphans(es, gone) {
        var i := OrphanOf(es, gone, a);
        LookupAt(es, i);
        OrphansRest(Lookup(es, es[i].chunk), gone);
      }
    }
  }

  /** No more versions than there are snapshots. */
  lemma EntriesProper(es: Entries, mask: Mask, i: nat)
    requires Sorted(es) && Books(es, mask) && i < |es|
    ensures |es[i].list| <= |mask| && Unrepeated(es[i].list)
  {
    hide Lookup, Addresses;
    LookupAt(es, i);
    assert Proper(Lookup(es, es[i].chunk), mask) && Unrepeated(Lookup(es, es[i].chunk));
    ProperCount(es[i].list, mask);
  }

  lemma BooksWider(es: Entries, mask: Mask, wide: Mask)
    requires Books(es, mask) && mask <= wide
    ensures Books(es, wide)
  {
    hide Lookup, Addresses, Unrepeated;
    forall c
      ensures Proper(Lookup(es, c), wide)
    {
      assert Proper(Lookup(es, c), mask) && Unrepeated(Lookup(es, c));
    }
  }

  /** Once the origin may change a chunk, it stays so. */
  lemma OriginReadyKept(es: Entries, chunk: nat, n: nat, writer: Writer, active: Mask, c: nat)
    requires Sorted(es) && Ready(es, c, Origin, active)
    ensures Ready(WithException(es, chunk, n, writer, active), c, Origin, active)
  {
    hide Lookup, WithException, WithVersion, AllShares, Resolve;
    WithExceptionLookup(es, chunk, n, writer, active, c);
    if c == chunk {
      var list := Lookup(es, chunk);
      forall b | b in active
        ensures b in AllShares(WithVersion(list, n, writer, active))
      {
        SharedByOne(list, b);
        SharedByOne(WithVersion(list, n, writer, active), b);
        match writer {
          case Origin => OriginVersionResolve(list, n, active, b);
          case Snapshot(bit) => SnapshotVersionResolve(list, n, bit, active, b);
        }
      }
    }
  }

  lemma OriginReadyLeft(es: Entries, gone: Mask, active: Mask, c: nat)
    requires Sorted(es) && Ready(es, c, Origin, active)
    ensures Ready(WithoutSnapshots(es, gone), c, Origin, active - gone)
  {
    hide Lookup, WithoutSnapshots, Without, AllShares, Resolve;
    WithoutSnapshotsLookup(es, gone, c);
    var list := Lookup(es, c);
    forall b | b in active - gone
      ensures b in AllShares(Without(list, gone))
    {
      SharedByOne(list, b);
      WithoutResolve(list, gone, b);
      SharedByOne(Without(list, gone), b);
    }
  }
}
