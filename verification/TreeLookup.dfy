/** Asking the tree about a chunk. */
module TreeLookup {
  import opened Exceptions
  import PackedLeaf
  import opened TreeSpec
  import opened ExceptionTree

  /** A block's contents agree with those of the child that covers the chunk. */
  lemma KidLookup(t: Tree, i: nat, depth: nat, lo: nat, hi: nat, chunk: nat)
    requires t.Index? && Ordered(t, depth, lo, hi) && i < |t.kids| == |t.keys|
    requires Low(t.keys, i, lo) <= chunk < High(t.keys, i, hi)
    ensures Lookup(Contents(t), chunk) == Lookup(Contents(t.kids[i]), chunk)
  {
    hide Ordered, Lookup, Contents, AllContents;
    var pre, post := AllContents(t.kids[..i]), AllContents(t.kids[i + 1..]);
    HeadOrdered(t, i, depth, lo, hi);
    if i + 1 < |t.kids| {
      TailOrdered(t, i + 1, depth, lo, hi);
    } else {
      assert t.kids[i + 1..] == [];
      NoContents();
    }
    AroundKid(t.kids, i);
    IndexFoot(t);
    PartPosition(pre, Contents(t.kids[i]), post, chunk);
  }

  /** The leaf at the end of the way down has everything the tree records about the chunk. */
  lemma {:induction false} TrailLookup(store: Store, path: seq<Step>, tr: Trail, chunk: nat, l: nat, slots: nat, n: nat, depth: nat)
    requires OnTrail(path, tr, chunk) && l <= |path| <= depth
    requires Good(store, tr.trees[0], slots, depth, tr.los[0], tr.his[0]) && Fits(tr.trees[0], n)
    ensures Lookup(Contents(tr.trees[l]), chunk) == Lookup(Contents(tr.trees[0]), chunk)
  {
    hide Good, Foot, Fits, Lookup, Contents, Ordered, Sorted, Within, Low, High;
    if l > 0 {
      TrailLookup(store, path, tr, chunk, l - 1, slots, n, depth);
      TrailGood(store, path, tr, chunk, l - 1, slots, n, depth);
      assert Follows(path[l - 1], tr.trees[l - 1], tr.trees[l - 1 + 1], tr.los[l - 1], tr.his[l - 1], tr.los[l - 1 + 1], tr.his[l - 1 + 1]);
      GoodOrdered(store, tr.trees[l - 1], slots, depth - (l - 1), tr.los[l - 1], tr.his[l - 1]);
      KidLookup(tr.trees[l - 1], path[l - 1].next - 1, depth - (l - 1), tr.los[l - 1], tr.his[l - 1], chunk);
    }
  }

  lemma GoodOrdered(store: Store, t: Tree, slots: nat, depth: nat, lo: nat, hi: nat)
    requires Good(store, t, slots, depth, lo, hi)
    ensures Ordered(t, depth, lo, hi) && Sorted(Contents(t)) && Within(Contents(t), lo, hi)
  {
    ContentsOrdered(t, depth, lo, hi);
  }

  /** Brings in the leaf that covers a chunk. */
  method LeafFor(bt: Btree, chunk: nat) returns (leaf: PackedLeaf.Leaf)
    requires bt.Valid() && chunk < LIMIT
    ensures fresh(leaf) && fresh(leaf.dir) && fresh(leaf.exc) && leaf.Valid() && Sorted(leaf.Entries())
    ensures Lookup(leaf.Entries(), chunk) == Lookup(Contents(bt.tree), chunk)
  {
    hide Good, Fits, Follows, Contents, Lookup;
    var path, sector, tr := bt.Probe(chunk);
    ghost var t := tr.trees[bt.levels];
    TrailLookup(bt.store, path, tr, chunk, bt.levels, bt.slots, bt.perNode, bt.levels);
    LeafFacts(bt.store, t, bt.slots, tr.los[bt.levels], tr.his[bt.levels]);
    LeafContents(t);
    leaf := new PackedLeaf.Leaf.Load(bt.store[sector].image);
  }

  /** Whether the origin may change a chunk without any snapshot seeing it. */
  method OriginUnique(bt: Btree, chunk: nat, mask: Mask) returns (unique: bool)
    requires bt.Valid() && chunk < LIMIT
    ensures unique <==> mask <= AllShares(Lookup(Contents(bt.tree), chunk))
  {
    var leaf := LeafFor(bt, chunk);
    unique := leaf.OriginUnique(chunk, mask);
  }

  /** Where a snapshot finds a chunk, and whether it has that place to itself. */
  method SnapshotUnique(bt: Btree, chunk: nat, bit: nat) returns (unique: bool, place: Place)
    requires bt.Valid() && chunk < LIMIT
    ensures unique <==> Sole(Lookup(Contents(bt.tree), chunk), bit)
    ensures place == Resolve(Lookup(Contents(bt.tree), chunk), bit)
  {
    var leaf := LeafFor(bt, chunk);
    unique, place := leaf.SnapshotUnique(chunk, bit);
  }
}
