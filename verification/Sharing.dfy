/** How versions of chunks are shared between snapshots. */
module Sharing {
  import opened Exceptions
  import opened Cardinality

  /** Every version has a sharer, no snapshot has two versions, and nobody shares who is not there. */
  ghost predicate Proper(list: seq<Exception>, mask: Mask) {
    && (forall k :: 0 <= k < |list| ==> list[k].share != {} && list[k].share <= mask)
    && forall j, k :: 0 <= j < k < |list| ==> list[j].share !! list[k].share
  }

  /** No two versions lie in the same place. */
  ghost predicate Unrepeated(list: seq<Exception>) {
    forall j, k :: 0 <= j < k < |list| ==> list[j].chunk != list[k].chunk
  }

  ghost function Addresses(list: seq<Exception>): set<nat> {
    set k | 0 <= k < |list| :: list[k].chunk
  }

  /** There are never more versions than snapshots. */
  lemma {:induction false} ProperCount(list: seq<Exception>, mask: Mask)
    requires Proper(list, mask)
    ensures |list| <= |mask|
  {
    if list != [] {
      var share, tail, rest := list[0].share, list[1..], mask - list[0].share;
      assert Proper(tail, rest) by {
        assert forall k :: 0 <= k < |tail| ==> tail[k] == list[k + 1];
      }
      ProperCount(tail, rest);
      var b :| b in share;
      SubsetSize(rest, mask - {b});
    }
  }

  lemma {:induction false} SharedByOne(list: seq<Exception>, b: nat)
    ensures b in AllShares(list) <==> exists k :: 0 <= k < |list| && b in list[k].share
    ensures b in AllShares(list) <==> Resolve(list, b).InStore?
  {
    if list != [] {
      SharedByOne(list[1..], b);
      assert forall k :: 0 <= k < |list[1..]| ==> list[1..][k] == list[k + 1];
    }
  }

  /** The first version that a snapshot shares. */
  lemma {:induction false} FirstShared(list: seq<Exception>, b: nat) returns (k: nat)
    ensures k <= |list| && (forall j :: 0 <= j < k ==> b !in list[j].share) && (k < |list| ==> b in list[k].share)
    ensures Resolve(list, b) == if k < |list| then InStore(list[k].chunk) else OnOrigin
    ensures Sole(list, b) <==> k < |list| && list[k].share == {b}
  {
    k := 0;
    while k < |list| && b !in list[k].share
      invariant k <= |list| && forall j :: 0 <= j < k ==> b !in list[j].share
    {
      k := k + 1;
    }
    ResolveAt(list, k, b);
  }

  // A new version

  lemma OriginVersion(list: seq<Exception>, address: nat, active: Mask)
    requires Proper(list, active) && !(active <= AllShares(list))
    ensures Proper(WithVersion(list, address, Origin, active), active)
    ensures active <= AllShares(WithVersion(list, address, Origin, active))
  {
    var r, share := WithVersion(list, address, Origin, active), active - AllShares(list);
    assert r == [Exception(share, address)] + list && r[1..] == list;
    assert AllShares(r) == share + AllShares(list);
    hide AllShares;
    var x :| x in active && x !in AllShares(list);
    assert x in share;
    forall k | 0 <= k < |list|
      ensures list[k].share <= AllShares(list)
    {
      ShareIncluded(list, k);
    }
    ConsProper(Exception(share, address), list, active);
  }

  lemma ShareIncluded(list: seq<Exception>, k: nat)
    requires k < |list|
    ensures list[k].share <= AllShares(list)
  {
    forall b | b in list[k].share
      ensures b in AllShares(list)
    {
      SharedByOne(list, b);
    }
  }

  lemma ConsProper(e: Exception, list: seq<Exception>, mask: Mask)
    requires Proper(list, mask) && e.share != {} && e.share <= mask
    requires forall k :: 0 <= k < |list| ==> e.share !! list[k].share
    ensures Proper([e] + list, mask)
  {
    var r := [e] + list;
    assert r[0] == e;
    forall k | 0 < k < |r|
      ensures r[k] == list[k - 1]
    {
    }
  }

  lemma OriginVersionResolve(list: seq<Exception>, address: nat, active: Mask, b: nat)
    ensures Resolve(WithVersion(list, address, Origin, active), b)
         == if b in active - AllShares(list) then InStore(address) else Resolve(list, b)
  {
    assert WithVersion(list, address, Origin, active)[1..] == list;
  }

  lemma SnapshotVersion(list: seq<Exception>, address: nat, bit: nat, active: Mask)
    requires Proper(list, active) && bit in active && !Sole(list, bit)
    ensures Proper(WithVersion(list, address, Snapshot(bit), active), active)
    ensures Sole(WithVersion(list, address, Snapshot(bit), active), bit)
  {
    var k := FirstShared(list, bit);
    ReleasedAt(list, k, bit);
    hide Released, Sole;
    var rest, r := Released(list, bit), WithVersion(list, address, Snapshot(bit), active);
    assert r == [Exception({bit}, address)] + rest;
    forall j | 0 <= j < |rest|
      ensures rest[j].share <= list[j].share && rest[j].share != {} && bit !in rest[j].share
    {
      assert j != k ==> rest[j] == list[j];
    }
    NarrowerProper(list, rest, active);
    ConsProper(Exception({bit}, address), rest, active);
    ResolveAt(r, 0, bit);
  }

  lemma NarrowerProper(list: seq<Exception>, rest: seq<Exception>, mask: Mask)
    requires Proper(list, mask) && |rest| == |list|
    requires forall j :: 0 <= j < |rest| ==> rest[j].share <= list[j].share && rest[j].share != {}
    ensures Proper(rest, mask)
  {
  }

  lemma {:induction false} ReleasedResolve(list: seq<Exception>, bit: nat, b: nat)
    requires b != bit
    ensures Resolve(Released(list, bit), b) == Resolve(list, b)
  {
    if list != [] {
      ReleasedResolve(list[1..], bit, b);
      var head := if bit in list[0].share then list[0].(share := list[0].share - {bit}) else list[0];
      var tail := if bit in list[0].share then list[1..] else Released(list[1..], bit);
      assert Released(list, bit) == [head] + tail;
      assert ([head] + tail)[1..] == tail;
    }
  }

  lemma SnapshotVersionResolve(list: seq<Exception>, address: nat, bit: nat, active: Mask, b: nat)
    ensures Resolve(WithVersion(list, address, Snapshot(bit), active), b)
         == if b == bit then InStore(address) else Resolve(list, b)
  {
    assert WithVersion(list, address, Snapshot(bit), active)[1..] == Released(list, bit);
    if b != bit {
      ReleasedResolve(list, bit, b);
    }
  }

  lemma {:induction false} ReleasedKeepsPlace(list: seq<Exception>, bit: nat, k: nat)
    requires k < |list|
    ensures Released(list, bit)[k].chunk == list[k].chunk
    ensures Released(list, bit)[k].share in {list[k].share, list[k].share - {bit}}
  {
    if k > 0 && bit !in list[0].share {
      ReleasedKeepsPlace(list[1..], bit, k - 1);
    }
  }

  lemma VersionAddresses(list: seq<Exception>, address: nat, writer: Writer, active: Mask)
    requires Unrepeated(list) && address !in Addresses(list)
    ensures var r := WithVersion(list, address, writer, active);
      Unrepeated(r) && Addresses(r) == Addresses(list) + {address}
  {
    hide Released, AllShares;
    var r := WithVersion(list, address, writer, active);
    assert r[0].chunk == address;
    forall k | 0 <= k < |list|
      ensures r[k + 1].chunk == list[k].chunk
    {
      if writer.Snapshot? {
        ReleasedKeepsPlace(list, writer.bit, k);
      }
    }
    assert forall k :: 0 < k < |r| ==> r[k].chunk == list[k - 1].chunk;
    forall a | a in Addresses(list) + {address}
      ensures a in Addresses(r)
    {
      if a != address {
        var k :| 0 <= k < |list| && list[k].chunk == a;
        assert r[k + 1].chunk == a;
      }
    }
  }

  // Snapshots removed

  lemma {:induction false} WithoutResolve(list: seq<Exception>, mask: Mask, b: nat)
    requires b !in mask
    ensures Resolve(Without(list, mask), b) == Resolve(list, b)
  {
    if list != [] {
      WithoutResolve(list[1..], mask, b);
      var kept, tail := list[0].share - mask, Without(list[1..], mask);
      WithoutHead(list, mask);
      hide Without;
      assert kept != {} ==> ([Exception(kept, list[0].chunk)] + tail)[1..] == tail;
      assert b in list[0].share ==> b in kept;
      assert kept == {} ==> b !in list[0].share && Without(list, mask) == tail;
    }
  }

  /** Each version that is left comes from one that was there. */
  lemma {:induction false} WithoutFrom(list: seq<Exception>, mask: Mask, k: nat) returns (j: nat)
    requires k < |Without(list, mask)|
    ensures j < |list| && Without(list, mask)[k] == Exception(list[j].share - mask, list[j].chunk) && list[j].share - mask != {}
  {
    var here := if list[0].share - mask != {} then 1 else 0;
    if k < here {
      j := 0;
    } else {
      j := WithoutFrom(list[1..], mask, k - here);
      j := j + 1;
    }
  }

  lemma {:induction false} WithoutOrder(list: seq<Exception>, mask: Mask, wide: Mask)
    requires Proper(list, wide) && Unrepeated(list)
    ensures Proper(Without(list, mask), wide - mask) && Unrepeated(Without(list, mask))
    ensures Addresses(Without(list, mask)) <= Addresses(list)
  {
    if list != [] {
      var tail := list[1..];
      assert forall k :: 0 <= k < |tail| ==> tail[k] == list[k + 1];
      WithoutOrder(tail, mask, wide);
      hide Without;
      var kept, rest, r := list[0].share - mask, Without(tail, mask), Without(list, mask);
      WithoutHead(list, mask);
      forall k | 0 <= k < |rest|
        ensures rest[k].share !! list[0].share && rest[k].chunk != list[0].chunk && rest[k].chunk in Addresses(list)
      {
        var j := WithoutFrom(tail, mask, k);
        assert tail[j] == list[j + 1];
      }
      if kept != {} {
        assert forall k :: 0 < k < |r| ==> r[k] == rest[k - 1];
        assert r[0] == Exception(kept, list[0].chunk);
      } else {
        assert r == rest;
      }
    }
  }

  lemma WithoutHead(list: seq<Exception>, mask: Mask)
    requires list != []
    ensures var kept := list[0].share - mask;
      Without(list, mask) == (if kept != {} then [Exception(kept, list[0].chunk)] else []) + Without(list[1..], mask)
  {
  }

  ghost function Set(s: seq<nat>): set<nat> {
    set x | x in s
  }

  /** The places are divided into those still in use and the orphans. */
  lemma {:induction false} OrphansRest(list: seq<Exception>, mask: Mask)
    requires Unrepeated(list)
    ensures Addresses(list) == Addresses(Without(list, mask)) + Set(Orphans(list, mask))
    ensures Addresses(Without(list, mask)) !! Set(Orphans(list, mask))
  {
    if list != [] {
      var tail, kept := list[1..], list[0].share - mask;
      assert forall k :: 0 <= k < |tail| ==> tail[k] == list[k + 1];
      OrphansRest(tail, mask);
      AddressesCons(list[0], tail);
      assert list == [list[0]] + tail;
      assert list[0].chunk !in Addresses(tail);
      WithoutHead(list, mask);
      var rest := Without(tail, mask);
      if kept != {} {
        AddressesCons(Exception(kept, list[0].chunk), rest);
        assert Orphans(list, mask) == Orphans(tail, mask);
      } else {
        assert Without(list, mask) == rest;
        assert Orphans(list, mask) == [list[0].chunk] + Orphans(tail, mask);
      }
    }
  }

  lemma AddressesCons(e: Exception, tail: seq<Exception>)
    ensures Addresses([e] + tail) == {e.chunk} + Addresses(tail)
  {
    var r := [e] + tail;
    assert r[0] == e && forall k :: 0 <= k < |tail| ==> r[k + 1] == tail[k];
    forall a | a in {e.chunk} + Addresses(tail)
      ensures a in Addresses(r)
    {
      if a != e.chunk {
        var k :| 0 <= k < |tail| && tail[k].chunk == a;
        assert r[k + 1].chunk == a;
      }
    }
  }
}
