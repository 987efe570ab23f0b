/** What the exception tree records: for each logical chunk, the copied-out versions of it and the
    snapshots that share each. A share mask is the set of its one bits. */
module Exceptions {

  type Mask = set<nat>

  /** One copied-out version of a chunk: who shares it and where it is. */
  datatype Exception = Exception(share: Mask, chunk: nat)

  /** One logical chunk of a leaf. */
  datatype Entry = Entry(chunk: nat, list: seq<Exception>)

  type Entries = seq<Entry>

  /** A request on behalf of the origin or of the snapshot with a given bit. */
  datatype Writer = Origin | Snapshot(bit: nat)

  ghost predicate Sorted(es: Entries) {
    forall i, j :: 0 <= i < j < |es| ==> es[i].chunk < es[j].chunk
  }

  ghost predicate NoEmpties(es: Entries) {
    forall i :: 0 <= i < |es| ==> es[i].list != []
  }

  /** The first index whose chunk is not below `chunk`. */
  function Position(es: Entries, chunk: nat): (i: nat)
    ensures i <= |es| && (i < |es| ==> es[i].chunk >= chunk)
    ensures forall k :: 0 <= k < i ==> es[k].chunk < chunk
  {
    if es == [] || es[0].chunk >= chunk then 0 else 1 + Position(es[1..], chunk)
  }

  predicate Present(es: Entries, chunk: nat) {
    var i := Position(es, chunk);
    i < |es| && es[i].chunk == chunk
  }

  /** The versions recorded for `chunk`. */
  function Lookup(es: Entries, chunk: nat): seq<Exception> {
    var i := Position(es, chunk);
    if i < |es| && es[i].chunk == chunk then es[i].list else []
  }

  /** In a sorted leaf a chunk's entry is the only one with that chunk. */
  lemma LookupAt(es: Entries, i: nat)
    requires Sorted(es) && i < |es|
    ensures Lookup(es, es[i].chunk) == es[i].list
  {
  }

  lemma LookupAbsent(es: Entries, chunk: nat)
    requires forall i :: 0 <= i < |es| ==> es[i].chunk != chunk
    ensures Lookup(es, chunk) == []
  {
  }

  lemma LookupCons(e: Entry, tail: Entries, c: nat)
    requires Sorted(tail) && forall i :: 0 <= i < |tail| ==> e.chunk < tail[i].chunk
    ensures Lookup([e] + tail, c) == if c == e.chunk then e.list else Lookup(tail, c)
    ensures c <= e.chunk ==> Lookup(tail, c) == []
  {
    assert ([e] + tail)[1..] == tail;
    if c <= e.chunk {
      LookupAbsent(tail, c);
    }
  }

  // Sharing

  function AllShares(list: seq<Exception>): Mask {
    if list == [] then {} else list[0].share + AllShares(list[1..])
  }

  /** The list with `bit` taken out of the first version that has it. */
  function Released(list: seq<Exception>, bit: nat): (r: seq<Exception>)
    ensures |r| == |list|
  {
    if list == [] then []
    else if bit in list[0].share then [list[0].(share := list[0].share - {bit})] + list[1..]
    else [list[0]] + Released(list[1..], bit)
  }

  /** Where a snapshot finds a chunk. */
  datatype Place = OnOrigin | InStore(address: nat)

  function Resolve(list: seq<Exception>, bit: nat): Place {
    if list == [] then OnOrigin
    else if bit in list[0].share then InStore(list[0].chunk)
    else Resolve(list[1..], bit)
  }

  /** The version that the snapshot has is shared with no other. */
  predicate Sole(list: seq<Exception>, bit: nat) {
    list != [] && if bit in list[0].share then list[0].share == {bit} else Sole(list[1..], bit)
  }

  lemma {:induction false} ResolveAt(list: seq<Exception>, k: nat, bit: nat)
    requires k <= |list| && forall j :: 0 <= j < k ==> bit !in list[j].share
    requires k < |list| ==> bit in list[k].share
    ensures Resolve(list, bit) == if k < |list| then InStore(list[k].chunk) else OnOrigin
    ensures Sole(list, bit) <==> k < |list| && list[k].share == {bit}
  {
    if k > 0 {
      ResolveAt(list[1..], k - 1, bit);
    }
  }

  lemma AllSharesStep(list: seq<Exception>, k: nat)
    requires k < |list|
    ensures AllShares(list[k..]) == list[k].share + AllShares(list[k + 1..])
  {
    assert list[k..][1..] == list[k + 1..];
  }

  lemma {:induction false} ReleasedAt(list: seq<Exception>, k: nat, bit: nat)
    requires k <= |list| && forall j :: 0 <= j < k ==> bit !in list[j].share
    requires k < |list| ==> bit in list[k].share
    ensures Released(list, bit)
         == if k < |list| then list[k := list[k].(share := list[k].share - {bit})] else list
  {
    if k > 0 {
      ReleasedAt(list[1..], k - 1, bit);
    }
  }

  /** The list after a new version at `address` has been made: for the origin it is shared by
      every active snapshot that had no version yet, for a snapshot by that snapshot alone. */
  function WithVersion(list: seq<Exception>, address: nat, writer: Writer, active: Mask): (r: seq<Exception>)
    ensures |r| == |list| + 1
  {
    match writer
    case Origin => [Exception(active - AllShares(list), address)] + list
    case Snapshot(bit) => [Exception({bit}, address)] + Released(list, bit)
  }

  /** The leaf after a new version of `chunk` has been made. */
  function WithException(es: Entries, chunk: nat, address: nat, writer: Writer, active: Mask): Entries {
    var i := Position(es, chunk);
    var e := Entry(chunk, WithVersion(Lookup(es, chunk), address, writer, active));
    if Present(es, chunk) then es[i := e] else Inserted(es, i, e)
  }

  lemma PositionIs(es: Entries, chunk: nat, i: nat)
    requires i <= |es| && (i < |es| ==> es[i].chunk >= chunk)
    requires forall k :: 0 <= k < i ==> es[k].chunk < chunk
    ensures Position(es, chunk) == i
  {
  }

  lemma ReplacedLookup(es: Entries, i: nat, e: Entry, c: nat)
    requires Sorted(es) && i < |es| && e.chunk == es[i].chunk
    ensures Sorted(es[i := e])
    ensures Lookup(es[i := e], c) == if c == e.chunk then e.list else Lookup(es, c)
  {
    var r, p := es[i := e], Position(es, c);
    PositionIs(r, c, p);
    if c == e.chunk {
      PositionIs(r, c, i);
    }
  }

  function Inserted(es: Entries, i: nat, e: Entry): (r: Entries)
    requires i <= |es|
    ensures |r| == |es| + 1
    ensures forall k {:trigger r[k]} :: 0 <= k < |r| ==> r[k] == if k < i then es[k] else if k == i then e else es[k - 1]
  {
    es[..i] + [e] + es[i..]
  }

  lemma InsertedSorted(es: Entries, i: nat, e: Entry)
    requires Sorted(es) && i == Position(es, e.chunk) && !Present(es, e.chunk)
    ensures Sorted(Inserted(es, i, e))
  {
    hide Inserted;
  }

  lemma InsertedLookup(es: Entries, i: nat, e: Entry, c: nat)
    requires Sorted(es) && i == Position(es, e.chunk) && !Present(es, e.chunk)
    ensures Lookup(Inserted(es, i, e), c) == if c == e.chunk then e.list else Lookup(es, c)
  {
    hide Inserted;
    var r, p := Inserted(es, i, e), Position(es, c);
    if c <= e.chunk {
      assert p <= i;
      PositionIs(r, c, p);
    } else {
      assert p >= i;
      PositionIs(r, c, p + 1);
    }
  }

  /** Exactly one chunk's versions change, and the order is kept. */
  lemma WithExceptionLookup(es: Entries, chunk: nat, address: nat, writer: Writer, active: Mask, c: nat)
    requires Sorted(es)
    ensures Sorted(WithException(es, chunk, address, writer, active))
    ensures Lookup(WithException(es, chunk, address, writer, active), c)
         == if c == chunk then WithVersion(Lookup(es, chunk), address, writer, active) else Lookup(es, c)
  {
    hide Sorted, WithVersion, Lookup, Inserted;
    var i := Position(es, chunk);
    var e := Entry(chunk, WithVersion(Lookup(es, chunk), address, writer, active));
    if Present(es, chunk) {
      ReplacedLookup(es, i, e, c);
    } else {
      InsertedSorted(es, i, e);
      InsertedLookup(es, i, e, c);
    }
  }

  lemma WithExceptionNoEmpties(es: Entries, chunk: nat, address: nat, writer: Writer, active: Mask)
    requires NoEmpties(es)
    ensures NoEmpties(WithException(es, chunk, address, writer, active))
  {
  }

  // Removing snapshots

  /** The versions still shared once `mask` is gone from every one of them. */
  function Without(list: seq<Exception>, mask: Mask): seq<Exception> {
    if list == [] then []
    else
      var kept := list[0].share - mask;
      (if kept != {} then [Exception(kept, list[0].chunk)] else []) + Without(list[1..], mask)
  }

  /** Where the versions lie that nobody shares once `mask` is gone. */
  function Orphans(list: seq<Exception>, mask: Mask): seq<nat> {
    if list == [] then []
    else (if list[0].share - mask == {} then [list[0].chunk] else []) + Orphans(list[1..], mask)
  }

  /** The leaf once `mask` is gone: chunks left without versions disappear. */
  function WithoutSnapshots(es: Entries, mask: Mask): Entries {
    if es == [] then []
    else
      var kept := Without(es[0].list, mask);
      (if kept != [] then [Entry(es[0].chunk, kept)] else []) + WithoutSnapshots(es[1..], mask)
  }

  /** Each list without `mask`, chunks left without versions still in place. */
  function Thinned(es: Entries, mask: Mask): (r: Entries)
    ensures |r| == |es|
    ensures forall i :: 0 <= i < |es| ==> r[i] == Entry(es[i].chunk, Without(es[i].list, mask))
  {
    seq(|es|, i requires 0 <= i < |es| => Entry(es[i].chunk, Without(es[i].list, mask)))
  }

  lemma ThinnedCons(es: Entries, i: nat, mask: Mask)
    requires i < |es|
    ensures Thinned(es[i..], mask) == [Entry(es[i].chunk, Without(es[i].list, mask))] + Thinned(es[i + 1..], mask)
  {
    hide Without;
    assert es[i..] == [es[i]] + es[i + 1..];
  }

  function DropEmpties(es: Entries): Entries {
    if es == [] then []
    else (if es[0].list != [] then [es[0]] else []) + DropEmpties(es[1..])
  }

  lemma {:induction false} DropEmptiesLast(es: Entries, e: Entry)
    ensures DropEmpties(es + [e]) == DropEmpties(es) + if e.list != [] then [e] else []
  {
    if es == [] {
      assert es + [e] == [e];
    } else {
      DropEmptiesLast(es[1..], e);
      assert (es + [e])[1..] == es[1..] + [e];
    }
  }

  lemma {:induction false} DropThinned(es: Entries, mask: Mask)
    ensures DropEmpties(Thinned(es, mask)) == WithoutSnapshots(es, mask)
  {
    if es != [] {
      DropThinned(es[1..], mask);
      assert Thinned(es, mask)[1..] == Thinned(es[1..], mask);
    }
  }

  /** Where every version of the leaf lies that nobody shares once `mask` is gone. */
  function AllOrphans(es: Entries, mask: Mask): seq<nat> {
    if es == [] then [] else Orphans(es[0].list, mask) + AllOrphans(es[1..], mask)
  }

  /** Some version is shared by a snapshot of `mask`. */
  predicate Touches(list: seq<Exception>, mask: Mask) {
    exists k :: 0 <= k < |list| && list[k].share * mask != {}
  }

  predicate AnyTouches(es: Entries, mask: Mask) {
    exists i :: 0 <= i < |es| && Touches(es[i].list, mask)
  }

  /** Removing snapshots acts on each chunk separately and keeps the leaf in order. */
  lemma {:induction false} WithoutSnapshotsLookup(es: Entries, mask: Mask, c: nat)
    requires Sorted(es)
    ensures Lookup(WithoutSnapshots(es, mask), c) == Without(Lookup(es, c), mask)
  {
    if es == [] {
      LookupAbsent(es, c);
    } else {
      hide Lookup, WithoutSnapshots, Without;
      var tail, rest, kept := es[1..], WithoutSnapshots(es[1..], mask), Without(es[0].list, mask);
      WithoutSnapshotsLookup(tail, mask, c);
      WithoutSnapshotsBound(tail, mask, es[0].chunk);
      assert es == [es[0]] + tail;
      LookupCons(es[0], tail, c);
      LookupCons(Entry(es[0].chunk, kept), rest, c);
      WithoutSnapshotsStep(es, mask);
      WithoutNothing(mask);
    }
  }

  lemma WithoutNothing(mask: Mask)
    ensures Without([], mask) == []
  {
  }

  lemma WithoutSnapshotsStep(es: Entries, mask: Mask)
    requires es != []
    ensures WithoutSnapshots(es, mask)
         == var kept := Without(es[0].list, mask);
            if kept != [] then [Entry(es[0].chunk, kept)] + WithoutSnapshots(es[1..], mask)
            else WithoutSnapshots(es[1..], mask)
  {
  }

  lemma {:induction false} WithoutSnapshotsBound(es: Entries, mask: Mask, low: int)
    requires Sorted(es) && forall i :: 0 <= i < |es| ==> low < es[i].chunk
    ensures var r := WithoutSnapshots(es, mask);
      Sorted(r) && NoEmpties(r) && forall i :: 0 <= i < |r| ==> low < r[i].chunk
  {
    if es != [] {
      assert forall i :: 0 <= i < |es[1..]| ==> es[1..][i] == es[i + 1];
      WithoutSnapshotsBound(es[1..], mask, es[0].chunk);
    }
  }

  // Space, in units of one map entry: a version takes two.

  function Versions(es: Entries): nat {
    if es == [] then 0 else |es[0].list| + Versions(es[1..])
  }

  function Payload(es: Entries): nat {
    |es| + 2 * Versions(es)
  }

  lemma {:induction false} VersionsConcat(a: Entries, b: Entries)
    ensures Versions(a + b) == Versions(a) + Versions(b)
  {
    if a == [] {
      assert a + b == b;
    } else {
      assert (a + b)[1..] == a[1..] + b;
      VersionsConcat(a[1..], b);
    }
  }
}
