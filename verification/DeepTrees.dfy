/** Why the delete walk is not claimed for trees of more than two index levels. */
module DeepTrees {
  import opened Exceptions
  import opened TreeSpec
  import opened ExceptionTree
  import opened DeleteWalk
  import opened Walker
  import opened PackedLeaf

  /** A root over two blocks, the first over one block full of leaves, the second over one block of two
      leaves, `l3` and `l4`. */
  datatype Names = Names(root: nat, a: nat, a1: nat, b: nat, c: nat, keys: seq<nat>, leaves: seq<Tree>, k3: nat, k4: nat, l3: Tree, l4: Tree)

  ghost function Left(n: Names): Tree {
    Index(n.a, [0], [Index(n.a1, n.keys, n.leaves)])
  }

  ghost function Right(n: Names): Tree {
    Index(n.b, [n.k3], [Index(n.c, [n.k3, n.k4], [n.l3, n.l4])])
  }

  ghost function Whole(n: Names): Tree {
    Index(n.root, [0, n.k3], [Left(n), Right(n)])
  }

  ghost predicate Shaped(n: Names, perNode: nat) {
    && 2 <= perNode == |n.leaves| == |n.keys| && n.l3.Leaf? && n.l4.Leaf?
    && forall i :: 0 <= i < |n.leaves| ==> n.leaves[i].Leaf?
  }

  /** The leaf that the third one is merged into. */
  ghost function Before(n: Names): Tree
    requires n.leaves != []
  {
    n.leaves[|n.leaves| - 1]
  }

  lemma Feet(n: Names, perNode: nat)
    requires Shaped(n, perNode)
    ensures Foot(Left(n)) == {n.a, n.a1} + AllFoot(n.leaves) && Foot(Right(n)) == {n.b, n.c, n.l3.sector, n.l4.sector}
    ensures forall i :: 0 <= i < |n.leaves| ==> n.leaves[i].sector in AllFoot(n.leaves)
  {
    PairOfKids(map[], n.l3, n.l4, 0);
    SingleKid(map[], Left(n).kids[0], 0);
    SingleKid(map[], Right(n).kids[0], 0);
    forall i | 0 <= i < |n.leaves|
      ensures n.leaves[i].sector in AllFoot(n.leaves)
    {
      AroundKid(n.leaves, i);
    }
  }

  /** The blocks are different blocks. */
  lemma Apart(n: Names, perNode: nat)
    requires Shaped(n, perNode) && Distinct(Whole(n))
    ensures n.root !in {n.a, n.a1, n.b, n.c, n.l3.sector, n.l4.sector} + AllFoot(n.leaves)
    ensures ({n.a, n.a1} + AllFoot(n.leaves)) !! {n.b, n.c, n.l3.sector, n.l4.sector}
    ensures n.a != n.a1 && {n.a, n.a1} !! AllFoot(n.leaves)
    ensures n.b !in {n.c, n.l3.sector, n.l4.sector} && n.c !in {n.l3.sector, n.l4.sector} && n.l3.sector != n.l4.sector
    ensures forall i :: 0 <= i < |n.leaves| ==> n.leaves[i].sector in AllFoot(n.leaves)
  {
    Feet(n, perNode);
    hide AllDistinct, AllFoot;
    PairOfKids(map[], Left(n), Right(n), 0);
    PairOfKids(map[], n.l3, n.l4, 0);
    SingleKid(map[], Left(n).kids[0], 0);
    SingleKid(map[], Right(n).kids[0], 0);
  }

  /** What the blocks hold. */
  ghost predicate Blocks(store: Store, n: Names, slots: nat) {
    && n.root in store && store[n.root] == Node([IndexEntry(0, n.a), IndexEntry(n.k3, n.b)])
    && n.a in store && store[n.a] == Node([IndexEntry(0, n.a1)])
    && n.a1 in store && NodeHeld(store[n.a1], n.keys, n.leaves)
    && n.b in store && store[n.b] == Node([IndexEntry(n.k3, n.c)])
    && n.c in store && store[n.c] == Node([IndexEntry(n.k3, n.l3.sector), IndexEntry(n.k4, n.l4.sector)])
    && LeafAt(store, n.l3, slots) && LeafAt(store, n.l4, slots) && forall i :: 0 <= i < |n.leaves| ==> LeafAt(store, n.leaves[i], slots)
  }

  ghost predicate LeafAt(store: Store, t: Tree, slots: nat) {
    t.Leaf? && t.sector in store && LeafHeld(store[t.sector], t.es, slots)
  }

  lemma BlocksOf(store: Store, n: Names, slots: nat, perNode: nat)
    requires Shaped(n, perNode) && Held(store, Whole(n), slots)
    ensures Blocks(store, n, slots)
  {
    hide LeafHeld;
    PairOfKids(store, Left(n), Right(n), slots);
    SingleKid(store, Left(n).kids[0], slots);
    SingleKid(store, Right(n).kids[0], slots);
    PairOfKids(store, n.l3, n.l4, slots);
    forall i | 0 <= i < |n.leaves|
      ensures LeafAt(store, n.leaves[i], slots)
    {
      AllHeldSplit(store, n.leaves, i, slots);
      assert n.leaves[i..][0] == n.leaves[i];
    }
  }

  /** The path to the third leaf, which has just been read. */
  function ToThird(n: Names): seq<Step> {
    [Step(n.root, 2), Step(n.b, 1), Step(n.c, 1)]
  }

  /** The step that merges the third leaf into the one before it, as the walk does it. */
  ghost predicate LeafMerged(store: Store, n: Names, merged: Block, s: Store) {
    n.leaves != [] &&
    var path, was := ToThird(n), store[Before(n).sector := merged];
    && (forall i :: 0 <= i <= 2 ==> OnBlock(was, path[i])) && (forall i :: 0 <= i < 2 ==> path[i].sector != path[2].sector)
    && s == IndexRemoved(was, path, 2) - {n.l3.sector}
  }

  /** The steps at the end: the last block over leaves does not fit into the one before it, the block
      above it fits into its neighbour, and the root is left with one entry and goes. */
  ghost predicate BlocksMerged(s: Store, n: Names, perNode: nat, s': Store) {
    && n.a in s && s[n.a].Node? && n.b in s && s[n.b].Node? && n.a1 in s && s[n.a1].Node? && n.c in s && s[n.c].Node?
    && |s[n.c].entries| > perNode - |s[n.a1].entries| && |s[n.b].entries| <= perNode - |s[n.a].entries|
    && var path, joined := ToThird(n), s[n.a := Node(s[n.a].entries + s[n.b].entries)];
    && OnBlock(joined, path[0])
    && n.root in IndexRemoved(joined, path, 0) && IndexRemoved(joined, path, 0)[n.root].Node? && |IndexRemoved(joined, path, 0)[n.root].entries| == 1
    && s' == IndexRemoved(joined, path, 0) - {n.b} - {n.root}
  }

  /** The third leaf is merged into the one before it and its entry removed: the separator in the root is
      repaired, and the first key of the block between is not. */
  lemma AfterLeaf(store: Store, n: Names, merged: Block, slots: nat, perNode: nat) returns (s: Store)
    requires Shaped(n, perNode) && Distinct(Whole(n)) && Blocks(store, n, slots) && merged.LeafBlock?
    ensures LeafMerged(store, n, merged, s)
    ensures n.root in s && s[n.root] == Node([IndexEntry(0, n.a), IndexEntry(n.k4, n.b)])
    ensures n.c in s && s[n.c] == Node([IndexEntry(n.k4, n.l4.sector)]) && Before(n).sector in s && s[Before(n).sector] == merged
    ensures forall x :: x in store && x !in {n.root, n.c, n.l3.sector, Before(n).sector} ==> x in s && s[x] == store[x]
    ensures n.b in s && s[n.b] == store[n.b]
  {
    hide LeafHeld;
    Apart(n, perNode);
    hide Distinct, AllFoot, AllDistinct;
    var path, was := ToThird(n), store[Before(n).sector := merged];
    assert OnBlock(was, path[0]) && OnBlock(was, path[1]) && OnBlock(was, path[2]);
    assert Pivot(path, 2) == 1 by {
      assert path[1].next == 1 && path[0].next == 2;
      assert Pivot(path, 1) == 1;
    }
    assert Dropped(was[n.c].entries, 0) == [IndexEntry(n.k4, n.l4.sector)];
    s := IndexRemoved(was, path, 2) - {n.l3.sector};
    assert s[n.root].entries == [IndexEntry(0, n.a), IndexEntry(n.k4, n.b)];
  }

  /** After that the second key of the neighbour is the stale one. */
  lemma AfterBlocks(s: Store, n: Names, perNode: nat) returns (s': Store)
    requires Shaped(n, perNode) && Distinct(Whole(n))
    requires n.root in s && s[n.root] == Node([IndexEntry(0, n.a), IndexEntry(n.k4, n.b)])
    requires n.a in s && s[n.a] == Node([IndexEntry(0, n.a1)]) && n.b in s && s[n.b] == Node([IndexEntry(n.k3, n.c)])
    requires n.a1 in s && s[n.a1].Node? && |s[n.a1].entries| == perNode && n.c in s && s[n.c].Node? && |s[n.c].entries| == 1
    ensures BlocksMerged(s, n, perNode, s')
    ensures n.a in s' && s'[n.a] == Node([IndexEntry(0, n.a1), IndexEntry(n.k3, n.c)])
    ensures forall x :: x in s && x !in {n.a, n.b, n.root} ==> x in s' && s'[x] == s[x]
  {
    Apart(n, perNode);
    var joined := s[n.a := Node(s[n.a].entries + s[n.b].entries)];
    assert OnBlock(joined, ToThird(n)[0]);
    s' := IndexRemoved(joined, ToThird(n), 0) - {n.b} - {n.root};
  }

  /** What the store records for a chunk in the leaf that it leads to. */
  ghost function Found(store: Store, root: nat, levels: nat, chunk: nat): seq<Exception> {
    var sector := Reach(store, root, chunk, levels);
    if sector in store && store[sector].LeafBlock? && store[sector].image.Valid() then Lookup(store[sector].image.Entries(), chunk) else []
  }

  /** In any such tree, whatever the number of entries a block holds, a walk that merges the third leaf
      into the one before it goes on to lose every chunk of the third leaf and no other: its versions
      are in the leaf that it was merged into, and the way down leads to the fourth. */
  lemma LostChunk(store: Store, n: Names, merged: Image, slots: nat, perNode: nat, chunk: nat) returns (s: Store, s': Store)
    requires Shaped(n, perNode) && Good(store, Whole(n), slots, 3, 0, LIMIT)
    requires LeafHeld(LeafBlock(merged), Before(n).es + n.l3.es, slots)
    ensures LeafMerged(store, n, LeafBlock(merged), s) && BlocksMerged(s, n, perNode, s')
    ensures n.k3 <= chunk < n.k4 ==> Found(store, n.root, 3, chunk) == Lookup(n.l3.es, chunk) && Found(s', n.a, 2, chunk) == []
    ensures Found(s', n.a, 2, chunk) == Found(store, n.root, 3, chunk) <==> !(n.k3 <= chunk < n.k4 && Lookup(n.l3.es, chunk) != [])
    ensures Before(n).sector in s' && s'[Before(n).sector] == LeafBlock(merged)
    ensures n.k3 <= chunk < n.k4 ==> Lookup(merged.Entries(), chunk) == Lookup(n.l3.es, chunk)
  {
    hide Ordered, IndexRemoved, Lookup, LeafMerged, BlocksMerged, Reach, LeafHeld;
    BlocksOf(store, n, slots, perNode);
    Apart(n, perNode);
    hide Distinct, AllFoot, AllDistinct, Held;
    s := AfterLeaf(store, n, LeafBlock(merged), slots, perNode);
    s' := AfterBlocks(s, n, perNode);
    LeafMeans(LeafBlock(merged), Before(n).es + n.l3.es, slots);
    if chunk < n.k3 {
      SameBelow(store, s', n, merged, slots, perNode, chunk);
    } else {
      Contained(n, perNode, chunk);
      ReachBefore(store, n, slots, chunk);
      ReachAfter(s', n, chunk);
      LeafMeans(store[n.l3.sector], n.l3.es, slots);
      LeafMeans(store[n.l4.sector], n.l4.es, slots);
    }
  }

  lemma LeafMeans(b: Block, es: Entries, slots: nat)
    requires LeafHeld(b, es, slots)
    ensures b.LeafBlock? && b.image.Valid() && b.image.Entries() == es
  {
  }

  lemma ReachBefore(store: Store, n: Names, slots: nat, chunk: nat)
    requires Blocks(store, n, slots) && n.k3 <= chunk
    ensures Reach(store, n.root, chunk, 3) == if chunk < n.k4 then n.l3.sector else n.l4.sector
  {
    assert Followed(store[n.root].entries, chunk, 1) == 2;
    assert Followed(store[n.b].entries, chunk, 1) == 1;
    assert Followed(store[n.c].entries, chunk, 1) == if chunk < n.k4 then 1 else 2;
    assert Reach(store, n.b, chunk, 2) == Reach(store, n.c, chunk, 1);
  }

  lemma ReachAfter(s: Store, n: Names, chunk: nat)
    requires n.k3 <= chunk
    requires n.a in s && s[n.a] == Node([IndexEntry(0, n.a1), IndexEntry(n.k3, n.c)]) && n.c in s && s[n.c] == Node([IndexEntry(n.k4, n.l4.sector)])
    ensures Reach(s, n.a, chunk, 2) == n.l4.sector
  {
    assert Followed(s[n.a].entries, chunk, 1) == 2;
    assert Followed(s[n.c].entries, chunk, 1) == 1;
    assert Reach(s, n.c, chunk, 1) == Reach(s, n.l4.sector, chunk, 0) == n.l4.sector;
  }

  /** The way down to the leaves of the first block is as it was. */
  lemma ReachLow(store: Store, s': Store, n: Names, slots: nat, perNode: nat, chunk: nat) returns (i: nat)
    requires Shaped(n, perNode) && Blocks(store, n, slots) && chunk < n.k3 && n.a1 in s' && s'[n.a1] == store[n.a1]
    requires n.a in s' && s'[n.a] == Node([IndexEntry(0, n.a1), IndexEntry(n.k3, n.c)])
    ensures i < |n.leaves| && Reach(store, n.root, chunk, 3) == Reach(s', n.a, chunk, 2) == n.leaves[i].sector
  {
    hide LeafHeld;
    assert Followed(store[n.root].entries, chunk, 1) == 1;
    assert Followed(store[n.a].entries, chunk, 1) == 1;
    assert Followed(s'[n.a].entries, chunk, 1) == 1;
    i := Followed(store[n.a1].entries, chunk, 1) - 1;
    assert Reach(store, n.a1, chunk, 1) == Reach(store, n.leaves[i].sector, chunk, 0) == n.leaves[i].sector;
    assert Reach(s', n.a1, chunk, 1) == Reach(s', n.leaves[i].sector, chunk, 0) == n.leaves[i].sector;
    assert Reach(store, n.a, chunk, 2) == Reach(store, n.a1, chunk, 1);
  }

  /** Below the third leaf's range nothing is lost. */
  lemma SameBelow(store: Store, s': Store, n: Names, merged: Image, slots: nat, perNode: nat, chunk: nat)
    requires Shaped(n, perNode) && Good(store, Whole(n), slots, 3, 0, LIMIT) && Blocks(store, n, slots) && chunk < n.k3
    requires merged.Valid() && merged.Entries() == Before(n).es + n.l3.es
    requires n.a1 in s' && s'[n.a1] == store[n.a1]
    requires n.a in s' && s'[n.a] == Node([IndexEntry(0, n.a1), IndexEntry(n.k3, n.c)])
    requires Before(n).sector in s' && s'[Before(n).sector] == LeafBlock(merged)
    requires forall i :: 0 <= i < |n.leaves| && n.leaves[i].sector != Before(n).sector ==> n.leaves[i].sector in s' && s'[n.leaves[i].sector] == store[n.leaves[i].sector]
    ensures Found(s', n.a, 2, chunk) == Found(store, n.root, 3, chunk)
  {
    hide Ordered, Lookup, Reach, LeafHeld, Held, Distinct, Image.Valid, Image.Entries;
    var i := ReachLow(store, s', n, slots, perNode, chunk);
    var t := n.leaves[i];
    assert LeafAt(store, t, slots) && LeafAt(store, Before(n), slots);
    LeafMeans(store[t.sector], t.es, slots);
    if t.sector == Before(n).sector {
      LeafMeans(store[t.sector], Before(n).es, slots);
      ThirdAbove(n, perNode);
      PartPosition([], Before(n).es, n.l3.es, chunk);
      assert [] + Before(n).es + n.l3.es == Before(n).es + n.l3.es;
    }
  }

  lemma ThirdAbove(n: Names, perNode: nat)
    requires Shaped(n, perNode) && Ordered(Whole(n), 3, 0, LIMIT)
    ensures Ordered(n.l3, 0, n.k3, n.k4) && forall i :: 0 <= i < |n.l3.es| ==> n.k3 <= n.l3.es[i].chunk
  {
    hide Ordered;
    KidOrdered(Whole(n), 1, 3, 0, LIMIT);
    KidOrdered(Right(n), 0, 2, n.k3, LIMIT);
    KidOrdered(Right(n).kids[0], 0, 1, n.k3, LIMIT);
    ContentsOrdered(n.l3, 0, n.k3, n.k4);
  }

  /** Above, a chunk is in the third leaf's range or in the fourth's, and in no other. */
  lemma Contained(n: Names, perNode: nat, chunk: nat)
    requires Shaped(n, perNode) && Ordered(Whole(n), 3, 0, LIMIT) && n.k3 <= chunk
    ensures chunk < n.k4 ==> Lookup(n.l4.es, chunk) == []
    ensures Lookup(Before(n).es + n.l3.es, chunk) == Lookup(n.l3.es, chunk)
  {
    hide Ordered, Lookup;
    var t := Whole(n);
    KidOrdered(t, 0, 3, 0, LIMIT);
    KidOrdered(t, 1, 3, 0, LIMIT);
    KidOrdered(Left(n), 0, 2, 0, n.k3);
    KidOrdered(Right(n), 0, 2, n.k3, LIMIT);
    KidOrdered(Left(n).kids[0], perNode - 1, 1, 0, n.k3);
    KidOrdered(Right(n).kids[0], 1, 1, n.k3, LIMIT);
    ContentsOrdered(Before(n), 0, n.keys[perNode - 1], n.k3);
    ContentsOrdered(n.l4, 0, n.k4, LIMIT);
    if chunk < n.k4 {
      LookupAbsent(n.l4.es, chunk);
    }
    PartPosition(Before(n).es, n.l3.es, [], chunk);
    assert Before(n).es + n.l3.es + [] == Before(n).es + n.l3.es;
  }

  // The walk's tests of the leaves

  /** The leaf fits into the one before it, by the test of the walk. */
  ghost predicate Merges(before: Block, leaf: Block) {
    && before.LeafBlock? && before.image.Valid() && leaf.LeafBlock? && leaf.image.Valid()
    && Payload(leaf.image.Entries()) <= before.image.Free()
  }

  /** Of all neighbours only the third leaf and the one before it fit together. */
  ghost predicate Crowded(n: Names, slots: nat)
    requires n.leaves != [] && n.l3.Leaf? && n.l4.Leaf? && forall i :: 0 <= i < |n.leaves| ==> n.leaves[i].Leaf?
  {
    && (forall i :: 1 <= i < |n.leaves| ==> Payload(n.leaves[i].es) + Payload(n.leaves[i - 1].es) > 2 * slots - 4)
    && Payload(n.l3.es) + Payload(Before(n).es) <= 2 * slots - 4
    && Payload(n.l4.es) + Payload(Before(n).es + n.l3.es) > 2 * slots - 4
  }

  lemma MergesMeans(before: Block, leaf: Block, es: Entries, more: Entries, slots: nat)
    requires LeafHeld(before, es, slots) && LeafHeld(leaf, more, slots)
    ensures Merges(before, leaf) <==> Payload(more) + Payload(es) <= 2 * slots - 4
  {
    hide Payload, Image.Entries;
    FreeIsRest(before.image);
  }

  /** If no version is removed, and the leaves are so crowded, that is where the walk's tests lead it: no
      leaf merges before the third one does, and the fourth does not fit into what that makes. */
  lemma WalkLeadsThere(store: Store, n: Names, merged: Image, slots: nat, perNode: nat)
    requires Shaped(n, perNode) && Held(store, Whole(n), slots) && Crowded(n, slots)
    requires LeafHeld(LeafBlock(merged), Before(n).es + n.l3.es, slots)
    ensures Blocks(store, n, slots) && forall i :: 1 <= i < perNode ==> !Merges(store[n.leaves[i - 1].sector], store[n.leaves[i].sector])
    ensures Merges(store[Before(n).sector], store[n.l3.sector]) && !Merges(LeafBlock(merged), store[n.l4.sector])
  {
    hide Held, LeafHeld, Merges, Payload;
    BlocksOf(store, n, slots, perNode);
    forall i | 1 <= i < perNode
      ensures !Merges(store[n.leaves[i - 1].sector], store[n.leaves[i].sector])
    {
      assert LeafAt(store, n.leaves[i - 1], slots) && LeafAt(store, n.leaves[i], slots);
      MergesMeans(store[n.leaves[i - 1].sector], store[n.leaves[i].sector], n.leaves[i - 1].es, n.leaves[i].es, slots);
    }
    assert LeafAt(store, Before(n), slots);
    MergesMeans(store[Before(n).sector], store[n.l3.sector], Before(n).es, n.l3.es, slots);
    MergesMeans(LeafBlock(merged), store[n.l4.sector], Before(n).es + n.l3.es, n.l4.es, slots);
  }
}
