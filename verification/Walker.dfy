/** Deleting snapshots: the walk over every leaf, one after the other. */
module Walker {
  import opened Exceptions
  import opened TreeSpec
  import opened ExceptionTree
  import opened DeleteWalk
  import opened DeleteSnapshots
  import opened Density
  import PackedLeaf

  datatype Saved = None | Some(sector: nat)

  /** One above the nearest level over `level` that does not follow its block's first entry, or zero. */
  function Pivot(path: seq<Step>, level: nat): (i: nat)
    requires level <= |path|
    ensures i <= level && (i > 0 ==> path[i - 1].next != 1)
  {
    if level == 0 then 0 else if path[level - 1].next != 1 then level else Pivot(path, level - 1)
  }

  ghost predicate OnBlock(store: Store, step: Step) {
    step.sector in store && store[step.sector].Node? && 1 <= step.next <= |store[step.sector].entries|
  }

  ghost function KeySet(store: Store, step: Step, key: nat): Store
    requires OnBlock(store, step)
  {
    var entries := store[step.sector].entries;
    store[step.sector := Node(entries[step.next - 1 := IndexEntry(key, entries[step.next - 1].sector)])]
  }

  /** The entry last followed at `level` taken out. If it was the first of several, the key of the
      next one replaces the separator that leads here. */
  ghost function IndexRemoved(store: Store, path: seq<Step>, level: nat): Store
    requires level < |path| && forall i :: 0 <= i <= level ==> OnBlock(store, path[i])
    requires forall i :: 0 <= i < level ==> path[i].sector != path[level].sector
  {
    var step := path[level];
    assert OnBlock(store, step);
    var entries := store[step.sector].entries;
    var removed := store[step.sector := Node(Dropped(entries, step.next - 1))];
    var i := Pivot(path, level);
    if step.next == 1 && |entries| > 1 && i > 0 then assert OnBlock(store, path[i - 1]); KeySet(removed, path[i - 1], entries[1].key) else removed
  }

  lemma RemovalRange(es: Entries, mask: Mask)
    ensures forall lo, hi :: Sorted(es) && Within(es, lo, hi) ==> Sorted(WithoutSnapshots(es, mask)) && Within(WithoutSnapshots(es, mask), lo, hi)
  {
    hide Within, WithoutSnapshots;
    forall lo, hi | Sorted(es) && Within(es, lo, hi)
      ensures Sorted(WithoutSnapshots(es, mask)) && Within(WithoutSnapshots(es, mask), lo, hi)
    {
      RemovalWithin(es, mask, lo, hi);
    }
  }

  /** The entry and the leaf that the cursor is at. */
  lemma CursorBlock(a: Store, levels: nat, root: nat, keys: seq<nat>, nodes: seq<Tree>, r: nat, j: nat, slots: nat, n: nat)
    requires Walking(a, levels, root, keys, nodes, slots, n) && r < |nodes| && j < |nodes[r].kids|
    ensures LeafNode(nodes[r], n) && nodes[r].Index? && nodes[r].kids[j].Leaf? && nodes[r].sector in a && a[nodes[r].sector].Node? && |a[nodes[r].sector].entries| == |nodes[r].kids|
    ensures |nodes[r].keys| == |nodes[r].kids|
    ensures a[nodes[r].sector].entries[j] == IndexEntry(nodes[r].keys[j], nodes[r].kids[j].sector)
    ensures nodes[r].kids[j].sector in a && a[nodes[r].kids[j].sector].LeafBlock? && LeafHeld(a[nodes[r].kids[j].sector], nodes[r].kids[j].es, slots)
  {
    hide Ordered, AllFoot, Foot, Distinct, AllDistinct, Held, AllHeld, Good, KidsGood, LeafHeld;
    NodeAt(a, keys, nodes, r, slots);
    NodeGood(a, nodes[r], slots, 1, Low(keys, r, 0), High(keys, r, LIMIT));
    LeafRange(a, nodes[r], j, slots, Low(keys, r, 0), High(keys, r, LIMIT));
    HeldLeaf(a[nodes[r].kids[j].sector], nodes[r].kids[j].es, slots);
  }

  lemma HeldLeaf(b: Block, es: Entries, slots: nat)
    requires LeafHeld(b, es, slots)
    ensures b.LeafBlock?
  {
  }

  method ThinLeaf(was: PackedLeaf.Image, mask: Mask, slots: nat, ghost es: Entries) returns (leaf: PackedLeaf.Leaf, image: PackedLeaf.Image, gone: seq<nat>)
    requires LeafHeld(LeafBlock(was), es, slots)
    ensures fresh(leaf) && fresh(leaf.dir) && fresh(leaf.exc) && leaf.Valid() && leaf.exc.Length == slots
    ensures leaf.Entries() == WithoutSnapshots(es, mask) && gone == AllOrphans(es, mask)
    ensures LeafHeld(LeafBlock(image), WithoutSnapshots(es, mask), slots)
  {
    leaf := new PackedLeaf.Leaf.Load(was);
    var any;
    any, gone := leaf.RemoveSnapshots(mask);
    image := leaf.Save();
  }

  /** Puts a leaf's entries after those of the leaf before it, if they fit. */
  method TryMerge(was: PackedLeaf.Image, leaf: PackedLeaf.Leaf, slots: nat, ghost es: Entries) returns (fits: bool, image: PackedLeaf.Image)
    requires LeafHeld(LeafBlock(was), es, slots) && leaf.Valid() && leaf.exc.Length == slots
    ensures fits <==> Payload(leaf.Entries()) <= was.Free()
    ensures fits ==> LeafHeld(LeafBlock(image), es + leaf.Entries(), slots)
  {
    hide PackedLeaf.Image.Entries, Payload;
    var before := new PackedLeaf.Leaf.Load(was);
    var used := leaf.Used();
    var room := before.Room();
    fits, image := used <= room, was;
    if fits {
      before.MergeFrom(leaf);
      image := before.Save();
    }
  }

  lemma RoomIn(b: Block, es: Entries, slots: nat)
    requires LeafHeld(b, es, slots)
    ensures b.image.Valid() && b.image.Free() == 2 * slots - 4 - Payload(es)
  {
    hide PackedLeaf.Image.Entries;
    PackedLeaf.FreeIsRest(b.image);
  }

  /** The leaf before leaf `j` of block `r`. */
  ghost function PrevLeaf(nodes: seq<Tree>, r: nat, j: nat): Tree
    requires r < |nodes| && nodes[r].Index? && j <= |nodes[r].kids|
    requires j > 0 || (r > 0 && nodes[r - 1].Index? && nodes[r - 1].kids != [])
  {
    if j > 0 then nodes[r].kids[j - 1] else nodes[r - 1].kids[|nodes[r - 1].kids| - 1]
  }

  /** The blocks that a merge touches are different blocks. */
  lemma PrevFacts(a: Store, levels: nat, root: nat, keys: seq<nat>, nodes: seq<Tree>, r: nat, j: nat, slots: nat, n: nat)
    requires Walking(a, levels, root, keys, nodes, slots, n) && r < |nodes| && j < |nodes[r].kids|
    requires j > 0 || (r > 0 && nodes[r - 1].kids != [])
    ensures nodes[r].Index? && (r > 0 ==> nodes[r - 1].Index?) && PrevLeaf(nodes, r, j).Leaf? && nodes[r].kids[j].Leaf?
    ensures var p := PrevLeaf(nodes, r, j); p.sector in a && a[p.sector].LeafBlock? && LeafHeld(a[p.sector], p.es, slots)
    ensures var p, s, node := PrevLeaf(nodes, r, j).sector, nodes[r].kids[j].sector, nodes[r].sector;
      p != s && p != node && s != node && (levels == 2 ==> root != p && root != s && root != node)
  {
    hide Ordered, AllFoot, Foot, Distinct, AllDistinct, Held, AllHeld, Good, KidsGood, LeafHeld;
    CursorBlock(a, levels, root, keys, nodes, r, j, slots, n);
    NodeAt(a, keys, nodes, r, slots);
    NodeGood(a, nodes[r], slots, 1, Low(keys, r, 0), High(keys, r, LIMIT));
    KidsDistinct(a, nodes[r].keys, nodes[r].kids, slots, 1, Low(keys, r, 0), High(keys, r, LIMIT));
    LeafInFoot(nodes[r], j);
    KidApart(nodes[r], j);
    if j > 0 {
      CursorBlock(a, levels, root, keys, nodes, r, j - 1, slots, n);
      LeafInFoot(nodes[r], j - 1);
      KidApart(nodes[r], j - 1);
      Apart(nodes[r].kids, j - 1, j);
      LeafFoot(nodes[r].kids[j - 1]);
      LeafFoot(nodes[r].kids[j]);
    } else {
      var k := |nodes[r - 1].kids| - 1;
      CursorBlock(a, levels, root, keys, nodes, r - 1, k, slots, n);
      NodeAt(a, keys, nodes, r - 1, slots);
      LeafInFoot(nodes[r - 1], k);
      KidsDistinct(a, keys, nodes, slots, 2, 0, LIMIT);
      Apart(nodes, r - 1, r);
    }
  }

  lemma KidApart(t: Tree, j: nat)
    requires t.Index? && j < |t.kids| && t.kids[j].Leaf? && t.sector !in AllFoot(t.kids)
    ensures t.kids[j].sector != t.sector
  {
    AroundKid(t.kids, j);
  }

  /** The path for leaf `j` of block `r`, which has just been read. */
  ghost predicate PathTo(path: seq<Step>, levels: nat, root: nat, node: nat, r: nat, j: nat) {
    && (levels == 1 ==> r == 0 && path == [Step(node, j + 1)])
    && (levels == 2 ==> path == [Step(root, r + 1), Step(node, j + 1)])
  }

  lemma PathBlocks(a: Store, levels: nat, root: nat, keys: seq<nat>, nodes: seq<Tree>, r: nat, j: nat, slots: nat, n: nat, path: seq<Step>)
    requires Walking(a, levels, root, keys, nodes, slots, n) && r < |nodes| && j < |nodes[r].kids|
    requires PathTo(path, levels, root, nodes[r].sector, r, j)
    ensures 1 <= levels <= 2 && (forall i :: 0 <= i < levels ==> OnBlock(a, path[i]))
    ensures levels == 2 ==> root != nodes[r].sector && a[root].entries[r].sector == nodes[r].sector
  {
    hide Ordered, AllFoot, Foot, KidsGood;
    CursorBlock(a, levels, root, keys, nodes, r, j, slots, n);
    NodeAt(a, keys, nodes, r, slots);
    LeafInFoot(nodes[r], j);
  }

  /** The store after leaf `s` has been merged into leaf `p`. */
  lemma MergedShape(a: Store, b: Store, levels: nat, root: nat, node: nat, r: nat, j: nat, path: seq<Step>, p: nat, s: nat, block: Block)
    requires 1 <= levels <= 2 && PathTo(path, levels, root, node, r, j) && (forall i :: 0 <= i < levels ==> OnBlock(a, path[i]))
    requires p != s && p != node && s != node && (levels == 2 ==> root != p && root != s && root != node)
    requires block.LeafBlock? && (forall i :: 0 <= i < levels ==> OnBlock(a[p := block], path[i]))
    requires b == IndexRemoved(a[p := block], path, levels - 1) - {s}
    ensures p in b && b[p] == block && node in b && b[node] == Node(Dropped(a[node].entries, j))
    ensures j == 0 && r > 0 && |a[node].entries| > 1 ==>
      && root in a && a[root].Node? && r < |a[root].entries|
      && root in b && b[root] == Node(a[root].entries[r := IndexEntry(a[node].entries[1].key, a[root].entries[r].sector)])
      && Agree(a, b, a.Keys - {p, s, node, root})
    ensures j > 0 || r == 0 || |a[node].entries| <= 1 ==> Agree(a, b, a.Keys - {p, s, node})
  {
    assert OnBlock(a, path[levels - 1]) && OnBlock(a, path[0]);
    assert path[levels - 1] == Step(node, j + 1);
    var c := a[p := block];
    assert c[node] == a[node];
    if levels == 2 {
      assert c[root] == a[root];
      assert Pivot(path, 1) == if r > 0 then 1 else 0;
    }
  }

  lemma WalkingRoot(a: Store, levels: nat, root: nat, keys: seq<nat>, nodes: seq<Tree>, slots: nat, n: nat)
    requires Walking(a, levels, root, keys, nodes, slots, n)
    ensures 1 <= levels <= 2 && (levels == 1 ==> |nodes| == 1 && nodes[0].sector == root)
    ensures forall i :: 0 <= i < |nodes| ==> nodes[i].Index?
  {
  }

  lemma SetAside(a: Store, b: Store, p: nat, path: seq<Step>, levels: nat)
    requires levels <= |path| && (forall i :: 0 <= i < levels ==> OnBlock(a, path[i]))
    requires p in b && b == a[p := b[p]] && p in a && a[p].LeafBlock?
    ensures forall i :: 0 <= i < levels ==> OnBlock(b, path[i])
  {
    forall i | 0 <= i < levels
      ensures OnBlock(b, path[i])
    {
      assert OnBlock(a, path[i]);
    }
  }

  lemma HollowBlocks(a: Store, root: nat, keys: seq<nat>, nodes: seq<Tree>, r: nat, node: nat, slots: nat, n: nat)
    requires Hollow(a, root, keys, nodes, r, node, slots, n)
    ensures 1 <= r <= |nodes| && nodes[r - 1].Index? && node in a && a[node] == Node([]) && node != root
    ensures var p := nodes[r - 1].sector; p in a && a[p].Node? && |a[p].entries| == |nodes[r - 1].kids| <= n && p != root && p != node
    ensures root in a && a[root].Node? && r < |a[root].entries|
  {
    hide Ordered, AllFoot, Foot, Distinct, AllDistinct, Held, AllHeld, Good, KidsGood;
    NodeAt(a, keys, nodes, r - 1, slots);
    NodeGood(a, nodes[r - 1], slots, 1, Low(keys, r - 1, 0), High(keys, r - 1, LIMIT));
  }

  lemma FinishedBlocks(a: Store, root: nat, keys: seq<nat>, nodes: seq<Tree>, r: nat, slots: nat, n: nat)
    requires Walking(a, 2, root, keys, nodes, slots, n) && 1 <= r < |nodes| && nodes[r].kids != [] && nodes[r - 1].kids != []
    ensures nodes[r - 1].Index? && nodes[r].Index? && (r + 1 < |nodes| ==> nodes[r + 1].Index?)
    ensures var p, s := nodes[r - 1].sector, nodes[r].sector;
      && p in a && a[p].Node? && |a[p].entries| == |nodes[r - 1].kids| && s in a && a[s].Node? && |a[s].entries| == |nodes[r].kids|
      && p != s && p != root && s != root && root in a && a[root].Node? && r < |a[root].entries| && |nodes[r - 1].kids| <= n
  {
    hide Ordered, AllFoot, Foot, Distinct, AllDistinct, Held, AllHeld, Good, KidsGood, LeafHeld;
    CursorBlock(a, 2, root, keys, nodes, r, 0, slots, n);
    CursorBlock(a, 2, root, keys, nodes, r - 1, 0, slots, n);
    NodeAt(a, keys, nodes, r, slots);
    NodeAt(a, keys, nodes, r - 1, slots);
    LeafInFoot(nodes[r], 0);
    LeafInFoot(nodes[r - 1], 0);
    KidsDistinct(a, keys, nodes, slots, 2, 0, LIMIT);
    Apart(nodes, r - 1, r);
  }

  lemma RootRemoved(c: Store, path: seq<Step>)
    requires |path| > 0 && OnBlock(c, path[0])
    ensures IndexRemoved(c, path, 0) == c[path[0].sector := Node(Dropped(c[path[0].sector].entries, path[0].next - 1))]
  {
  }

  /** The tree as the walk sees it. */
  lemma StartOne(store: Store, t: Tree, slots: nat, n: nat)
    requires Good(store, t, slots, 1, 0, LIMIT) && Fits(t, n)
    ensures t.Index? && Walking(store, 1, t.sector, [0], [t], slots, n) && AllContents([t]) == Contents(t) && t.kids != []
    ensures Footprint([t], 1, t.sector) == Foot(t)
  {
    SingleKid(store, t, slots);
    LeavesBelow(t, n, 0, LIMIT);
    var u := Index(0, [0], [t]);
    hide Ordered, AllContents, Contents, Distinct, AllDistinct, Held, AllHeld;
    assert Low(u.keys, 0, 0) == 0 && High(u.keys, 0, LIMIT) == LIMIT;
    MakeOrdered(u, 2, 0, LIMIT);
  }

  lemma StartTwo(store: Store, t: Tree, slots: nat, n: nat)
    requires Good(store, t, slots, 2, 0, LIMIT) && Fits(t, n)
    ensures t.Index? && Walking(store, 2, t.sector, t.keys, t.kids, slots, n) && AllContents(t.kids) == Contents(t)
    ensures Footprint(t.kids, 2, t.sector) == Foot(t)
    ensures t.kids != [] && t.kids[0].Index? && t.kids[0].kids != []
  {
    GoodIndex(store, t, slots, 2, 0, LIMIT);
    hide Ordered, AllContents, Contents, Distinct, AllDistinct, Held, AllHeld, Good, KidsGood, Fits;
    NodeGood(store, t, slots, 2, 0, LIMIT);
    IndexFoot(t);
    forall i | 0 <= i < |t.kids|
      ensures LeafNode(t.kids[i], n) && t.kids[i].kids != []
    {
      KidOrdered(t, i, 2, 0, LIMIT);
      FitsKid(t, i, n);
      LeavesBelow(t.kids[i], n, Low(t.keys, i, 0), High(t.keys, i, LIMIT));
    }
    FitsKid(t, 0, n);
    assert RootHeld(store, 2, t.sector, t.keys, t.kids, n);
  }

  lemma GoodIndex(store: Store, t: Tree, slots: nat, depth: nat, lo: nat, hi: nat)
    requires Good(store, t, slots, depth, lo, hi) && depth > 0
    ensures t.Index?
  {
  }

  lemma LeavesBelow(t: Tree, n: nat, lo: nat, hi: nat)
    requires Ordered(t, 1, lo, hi) && Fits(t, n)
    ensures LeafNode(t, n) && t.kids != []
  {
    forall i | 0 <= i < |t.kids|
      ensures t.kids[i].Leaf?
    {
      KidOrdered(t, i, 1, lo, hi);
    }
  }

  /** Chunk 0 is in the first leaf. */
  lemma FirstPath(store: Store, path: seq<Step>, tr: Trail, levels: nat, slots: nat)
    requires 1 <= levels <= 2 && |path| == levels && OnTrail(path, tr, 0)
    requires Good(store, tr.trees[0], slots, levels, 0, LIMIT) && tr.los[0] == 0 && tr.his[0] == LIMIT
    ensures path[0] == Step(tr.trees[0].sector, 1)
    ensures levels == 2 ==> tr.trees[0].Index? && tr.trees[0].kids != [] && path[1] == Step(tr.trees[0].kids[0].sector, 1)
  {
    hide Good, Ordered;
    FirstEntry(store, path, tr, 0, levels, slots);
    if levels == 2 {
      KidGood(store, tr.trees[0], 0, slots, levels, 0, LIMIT);
      FirstEntry(store, path, tr, 1, levels, slots);
    }
  }

  lemma FirstEntry(store: Store, path: seq<Step>, tr: Trail, l: nat, levels: nat, slots: nat)
    requires l < |path| == levels && OnTrail(path, tr, 0)
    requires Good(store, tr.trees[l], slots, levels - l, 0, tr.his[l]) && tr.los[l] == 0
    ensures path[l] == Step(tr.trees[l].sector, 1)
    ensures tr.trees[l].Index? && tr.trees[l].kids != [] && tr.trees[l + 1] == tr.trees[l].kids[0] && tr.los[l + 1] == 0
    ensures tr.his[l + 1] == High(tr.trees[l].keys, 0, tr.his[l])
  {
    var t, i := tr.trees[l], path[l].next - 1;
    assert Follows(path[l], tr.trees[l], tr.trees[l + 1], tr.los[l], tr.his[l], tr.los[l + 1], tr.his[l + 1]);
    if i > 0 {
      KidOrdered(t, i - 1, levels - l, 0, tr.his[l]);
    }
  }

  /** At first nothing has been seen. */
  lemma StartHalf(nodes: seq<Tree>, mask: Mask)
    requires nodes != [] ==> nodes[0].Index?
    ensures HalfDone(nodes, 0, 0, [], AllContents(nodes), [], mask)
  {
    StartParts(nodes, 0);
    assert nodes[..0] == [] && nodes[0..] == nodes;
  }

  lemma StandingBlock(a: Store, levels: nat, root: nat, keys: seq<nat>, nodes: seq<Tree>, r: nat, slots: nat, n: nat)
    requires Walking(a, levels, root, keys, nodes, slots, n) && r < |nodes|
    ensures nodes[r].Index? && nodes[r].kids != [] && nodes[r].sector in a && a[nodes[r].sector].Node?
    ensures |a[nodes[r].sector].entries| == |nodes[r].kids|
  {
    hide Ordered, AllFoot, Foot, Distinct, AllDistinct, Held, AllHeld, Good, KidsGood;
    NodeAt(a, keys, nodes, r, slots);
    NodeGood(a, nodes[r], slots, 1, Low(keys, r, 0), High(keys, r, LIMIT));
  }

  lemma RootBlock(a: Store, root: nat, keys: seq<nat>, nodes: seq<Tree>, slots: nat, n: nat)
    requires Walking(a, 2, root, keys, nodes, slots, n)
    ensures root in a && a[root].Node? && |a[root].entries| == |nodes|
    ensures forall i :: 0 <= i < |nodes| ==> a[root].entries[i].sector == nodes[i].sector
  {
  }

  /** At the end nothing is left to come. */
  lemma AllSeen(nodes: seq<Tree>, seen: Entries, orig: Entries)
    requires forall i :: 0 <= i < |nodes| ==> nodes[i].Index?
    ensures seen + After(nodes, |nodes|, 0) == orig ==> seen == orig
    ensures Before(nodes, |nodes|, 0) == AllContents(nodes)
    ensures nodes != [] ==>
      && (seen + After(nodes, |nodes| - 1, |nodes[|nodes| - 1].kids|) == orig ==> seen == orig)
      && Before(nodes, |nodes| - 1, |nodes[|nodes| - 1].kids|) == AllContents(nodes)
  {
    hide AllContents;
    NoContents();
    StartParts(nodes, |nodes|);
    assert nodes[..|nodes|] == nodes && nodes[|nodes|..] == [];
    if nodes != [] {
      NextParts(nodes, |nodes| - 1);
    }
  }

  lemma LevelDropped(a: Store, root: nat, keys: seq<nat>, nodes: seq<Tree>, slots: nat, n: nat)
    requires Walking(a, 2, root, keys, nodes, slots, n) && |nodes| == 1
    ensures Walking(a - {root}, 1, nodes[0].sector, keys, nodes, slots, n) && root !in AllFoot(nodes)
  {
    hide Ordered, AllDistinct, AllHeld, AllFoot;
    AllHeldFrame(a, a - {root}, nodes, slots);
  }

  ghost predicate HalfDone(nodes: seq<Tree>, r: nat, j: nat, seen: Entries, orig: Entries, freed: seq<nat>, mask: Mask)
    requires r <= |nodes|
  {
    && Before(nodes, r, j) == WithoutSnapshots(seen, mask) && seen + After(nodes, r, j) == orig
    && freed == AllOrphans(seen, mask)
  }

  /** The leaves are arranged in another way. */
  lemma Rearranged(nodes: seq<Tree>, j: nat, nodes': seq<Tree>, j': nat, r: nat, seen: Entries, orig: Entries, freed: seq<nat>, mask: Mask)
    requires r <= |nodes| && r <= |nodes'| && HalfDone(nodes, r, j, seen, orig, freed, mask)
    requires Before(nodes', r, j') == Before(nodes, r, j) && After(nodes', r, j') == After(nodes, r, j)
    ensures HalfDone(nodes', r, j', seen, orig, freed, mask)
  {
  }

  lemma HollowNodes(store: Store, root: nat, keys: seq<nat>, nodes: seq<Tree>, r: nat, node: nat, slots: nat, n: nat)
    requires Hollow(store, root, keys, nodes, r, node, slots, n)
    ensures forall i :: 0 <= i < |nodes| ==> nodes[i].Index?
  {
  }

  /** The footprints of the blocks that are left. */
  lemma FootLeft(nodes: seq<Tree>, nodes': seq<Tree>, levels: nat, root: nat, s: nat)
    requires AllFoot(nodes') == AllFoot(nodes) - {s} && (levels == 2 ==> root != s)
    ensures Footprint(nodes', levels, root) == Footprint(nodes, levels, root) - {s}
  {
  }

  lemma FootHollow(nodes: seq<Tree>, nodes': seq<Tree>, root: nat, node: nat, s: nat)
    requires AllFoot(nodes') == AllFoot(nodes) - {node, s} && node in AllFoot(nodes) && s != root && node != s
    ensures Footprint(nodes', 2, root) + {node} == Footprint(nodes, 2, root) - {s}
  {
  }

  /** The store once leaf `s`, the first of block `node`, has been merged into leaf `p`. */
  ghost predicate ShiftStore(a: Store, b: Store, p: Tree, s: Tree, m: Tree, node: nat, root: nat, r: nat, slots: nat) {
    && p.Leaf? && s.Leaf? && m.Leaf? && m.sector == p.sector && m.es == p.es + s.es
    && m.sector in b && LeafHeld(b[m.sector], m.es, slots) && Agree(a, b, a.Keys - {m.sector, s.sector, node, root})
    && node in a && a[node].Node? && 1 < |a[node].entries| && node in b && b[node] == Node(Dropped(a[node].entries, 0))
    && root in a && a[root].Node? && r < |a[root].entries| && root in b
    && b[root] == Node(a[root].entries[r := IndexEntry(a[node].entries[1].key, a[root].entries[r].sector)])
  }

  /** One more leaf dealt with. */
  lemma OneMore(nodes: seq<Tree>, nodes': seq<Tree>, r: nat, j: nat, es: Entries, seen: Entries, orig: Entries, freed: seq<nat>, gone: seq<nat>, mask: Mask)
    requires r < |nodes| == |nodes'| && HalfDone(nodes, r, j, seen, orig, freed, mask) && gone == AllOrphans(es, mask)
    requires Before(nodes', r, j + 1) == Before(nodes, r, j) + WithoutSnapshots(es, mask) && After(nodes, r, j) == es + After(nodes', r, j + 1)
    ensures HalfDone(nodes', r, j + 1, seen + es, orig, freed + gone, mask)
  {
    hide Before, After, WithoutSnapshots, AllOrphans;
    RemovalConcat(seen, es, mask);
    Reassociate(seen, es, After(nodes', r, j + 1));
  }

  /** What comes before a leaf that is rewritten stays packed. */
  lemma OneSet(nodes: seq<Tree>, r: nat, j: nat, m: Tree, slots: nat, n: nat)
    requires Tight(nodes, r, j, slots, n) && r < |nodes| && nodes[r].Index? && j < |nodes[r].kids|
    ensures Tight(nodes[r := Index(nodes[r].sector, nodes[r].keys, nodes[r].kids[j := m])], r, j, slots, n)
  {
    hide Tight;
    var nodes' := nodes[r := Index(nodes[r].sector, nodes[r].keys, nodes[r].kids[j := m])];
    assert nodes'[..r] == nodes[..r] && nodes'[r].kids[..j] == nodes[r].kids[..j];
    TightSame(nodes, nodes', r, j, slots, n);
  }

  /** The sectors of the blocks that the walk sees. */
  ghost function Footprint(nodes: seq<Tree>, levels: nat, root: nat): set<nat> {
    AllFoot(nodes) + if levels == 2 then {root} else {}
  }

  /** The store holds `rest` and the tree's own blocks, which are among those of the `whole`. */
  ghost predicate Exactly(store: Store, rest: set<nat>, whole: set<nat>, foot: set<nat>) {
    store.Keys == rest + foot && rest !! foot && foot <= whole
  }

  /** A block of the tree is freed. */
  lemma Freed(a: Store, b: Store, rest: set<nat>, whole: set<nat>, foot: set<nat>, foot': set<nat>, s: nat)
    requires Exactly(a, rest, whole, foot) && b.Keys == a.Keys - {s} && s in foot && foot' == foot - {s}
    ensures Exactly(b, rest, whole, foot')
  {
  }

  lemma InPrint(nodes: seq<Tree>, levels: nat, root: nat)
    ensures AllFoot(nodes) <= Footprint(nodes, levels, root)
  {
  }

  lemma InFoot(a: Store, levels: nat, root: nat, keys: seq<nat>, nodes: seq<Tree>, r: nat, j: nat, slots: nat, n: nat)
    requires Walking(a, levels, root, keys, nodes, slots, n) && r < |nodes| && j < |nodes[r].kids|
    ensures nodes[r].sector in AllFoot(nodes) && nodes[r].kids[j].sector in AllFoot(nodes)
  {
    hide AllFoot, Foot, KidsGood;
    NodeAt(a, keys, nodes, r, slots);
    LeafInFoot(nodes[r], j);
  }

  lemma HollowFoot(a: Store, root: nat, keys: seq<nat>, nodes: seq<Tree>, r: nat, node: nat, slots: nat, n: nat)
    requires Hollow(a, root, keys, nodes, r, node, slots, n)
    ensures node != root && node !in AllFoot(nodes)
  {
  }

  class Walk {

    const bt: Btree
    const mask: Mask
    var path: seq<Step>
    var prev: Saved
    var hold: Saved
    var freed: seq<nat>
    ghost var keys: seq<nat>
    ghost var nodes: seq<Tree>
    ghost var r: nat
    ghost var seen: Entries
    ghost const rest: set<nat>
    ghost const whole: set<nat>

    /** The last leaf before leaf `j` of block `r`. */
    ghost function Last(j: nat): Saved
      reads this
      requires r <= |nodes| && forall i :: 0 <= i < |nodes| ==> nodes[i].Index?
    {
      if r < |nodes| && 0 < j <= |nodes[r].kids| then Some(nodes[r].kids[j - 1].sector)
      else if r > 0 && nodes[r - 1].kids != [] then Some(nodes[r - 1].kids[|nodes[r - 1].kids| - 1].sector)
      else None
    }

    /** The path leads to leaf `j` of block `r`, and the block before is held. */
    ghost predicate Stands(j: nat)
      reads this, bt
    {
      && bt.perNode >= 2 && bt.slots >= 128
      && Walking(bt.store, bt.levels, bt.root, keys, nodes, bt.slots, bt.perNode)
      && r < |nodes| && j <= |nodes[r].kids| && nodes[r].kids != [] && (r > 0 ==> nodes[r - 1].kids != [])
      && 1 <= |path| == bt.levels <= 2 && path[bt.levels - 1] == Step(nodes[r].sector, j)
      && (bt.levels == 2 ==> path[0] == Step(bt.root, r + 1))
      && hold == (if r == 0 then None else Some(nodes[r - 1].sector))
      && Exactly(bt.store, rest, whole, Footprint(nodes, bt.levels, bt.root))
    }

    /** Block `r` has just lost its only leaf. */
    ghost predicate Hollowed(node: nat)
      reads this, bt
    {
      && bt.perNode >= 2 && bt.slots >= 128 && bt.levels == 2
      && Hollow(bt.store, bt.root, keys, nodes, r, node, bt.slots, bt.perNode) && nodes[r - 1].kids != []
      && |path| == 2 && path == [Step(bt.root, r + 1), Step(node, 0)]
      && hold == Some(nodes[r - 1].sector)
      && Exactly(bt.store, rest, whole, Footprint(nodes, 2, bt.root) + {node})
    }

    /** What that means: the snapshots are gone from everything seen so far, and nothing else is
        different. */
    ghost predicate Half(orig: Entries, j: nat)
      reads this
    {
      r <= |nodes| && HalfDone(nodes, r, j, seen, orig, freed, mask)
    }

    /** No two neighbours before leaf `j`, and no two blocks before block `r`, would fit into one. */
    ghost predicate Packed(j: nat)
      reads this
    {
      Tight(nodes, r, j, bt.slots, bt.perNode)
    }

    /** Takes the snapshots out of the next leaf. */
    method Thin(ghost orig: Entries, ghost j: nat) returns (leaf: PackedLeaf.Leaf, sector: nat)
      requires Stands(j) && Half(orig, j) && j < |nodes[r].kids| && Packed(j)
      modifies this`path, this`freed, this`nodes, this`seen, bt`store
      ensures Packed(j)
      ensures Stands(j + 1) && Half(orig, j + 1) && j < |nodes[r].kids| && Last(j) == old(Last(j))
      ensures |nodes| == old(|nodes|) && |nodes[r].kids| == old(|nodes[r].kids|)
      ensures fresh(leaf) && fresh(leaf.dir) && fresh(leaf.exc) && leaf.Valid() && leaf.exc.Length == bt.slots
      ensures nodes[r].kids[j] == Tree.Leaf(sector, leaf.Entries())
    {
      hide Walking, KidsGood, Before, After, WithoutSnapshots, AllOrphans, LeafHeld, LeafNode, Sorted, Within, AllFoot, HalfDone, Tight, PackedLeaf.Image.Valid, PackedLeaf.Image.Entries, PackedLeaf.Leaf.View;
      var level := bt.levels - 1;
      ghost var a := bt.store;
      WalkingRoot(a, bt.levels, bt.root, keys, nodes, bt.slots, bt.perNode);
      CursorBlock(a, bt.levels, bt.root, keys, nodes, r, j, bt.slots, bt.perNode);
      sector := bt.store[path[level].sector].entries[path[level].next].sector;
      path := path[level := path[level].(next := path[level].next + 1)];
      ghost var es := nodes[r].kids[j].es;
      var image, gone;
      leaf, image, gone := ThinLeaf(bt.store[sector].image, mask, bt.slots, es);
      bt.store := bt.store[sector := LeafBlock(image)];
      freed := freed + gone;
      NowThinned(a, orig, j, Tree.Leaf(sector, leaf.Entries()), old(freed), gone);
      OneSet(old(nodes), r, j, Tree.Leaf(sector, leaf.Entries()), bt.slots, bt.perNode);
    }

    ghost method NowThinned(a: Store, orig: Entries, j: nat, m: Tree, freed0: seq<nat>, gone: seq<nat>)
      requires bt.perNode >= 2 && bt.slots >= 128 && Walking(a, bt.levels, bt.root, keys, nodes, bt.slots, bt.perNode)
      requires r < |nodes| && nodes[r].Index? && j < |nodes[r].kids| && (r > 0 ==> nodes[r - 1].Index? && nodes[r - 1].kids != []) && nodes[r].kids[j].Leaf?
      requires 1 <= |path| == bt.levels <= 2 && path[bt.levels - 1] == Step(nodes[r].sector, j + 1)
      requires (bt.levels == 2 ==> path[0] == Step(bt.root, r + 1)) && hold == if r == 0 then None else Some(nodes[r - 1].sector)
      requires HalfDone(nodes, r, j, seen, orig, freed0, mask) && gone == AllOrphans(nodes[r].kids[j].es, mask) && freed == freed0 + gone
      requires m == Tree.Leaf(nodes[r].kids[j].sector, WithoutSnapshots(nodes[r].kids[j].es, mask))
      requires m.sector in bt.store && LeafHeld(bt.store[m.sector], m.es, bt.slots) && Agree(a, bt.store, a.Keys - {m.sector})
      requires bt.store.Keys == a.Keys && Exactly(a, rest, whole, Footprint(nodes, bt.levels, bt.root))
      modifies this`nodes, this`seen
      ensures Stands(j + 1) && Half(orig, j + 1)
      ensures nodes == old(nodes[r := Index(nodes[r].sector, nodes[r].keys, nodes[r].kids[j := m])])
    {
      hide Walking, KidsGood, Before, After, WithoutSnapshots, AllOrphans, LeafHeld, LeafNode, Sorted, Within, AllFoot, HalfDone;
      ghost var was, es := nodes, nodes[r].kids[j].es;
      RemovalRange(es, mask);
      nodes := LeafStep(a, bt.store, bt.levels, bt.root, keys, nodes, r, j, m, bt.slots, bt.perNode);
      OneMore(was, nodes, r, j, es, seen, orig, freed0, gone, mask);
      seen := seen + es;
    }

    /** How many entries of the current block have been followed. */
    ghost function Cursor(): nat
      reads this
    {
      if path == [] then 0 else path[|path| - 1].next
    }

    /** Merges leaf `j`, just thinned, into the leaf before it if it fits there. */
    method Settle(leaf: PackedLeaf.Leaf, sector: nat, ghost orig: Entries, ghost j: nat) returns (hollow: bool)
      requires Stands(j + 1) && Half(orig, j + 1) && prev == Last(j) && Packed(j)
      requires leaf.Valid() && leaf.exc.Length == bt.slots && nodes[r].kids[j] == Tree.Leaf(sector, leaf.Entries())
      modifies this`path, this`prev, this`keys, this`nodes, bt`store
      ensures !hollow ==> Stands(Cursor()) && Half(orig, Cursor()) && prev == Last(Cursor()) && Packed(Cursor())
      ensures !hollow ==> |nodes| == old(|nodes|) && |nodes[r].kids| - Cursor() == old(|nodes[r].kids|) - (j + 1)
      ensures hollow ==> |path| == bt.levels == 2 && Hollowed(path[1].sector) && Half(orig, 0) && prev == Last(0) && |nodes| == old(|nodes|) - 1
      ensures hollow ==> Packed(0)
    {
      hide Walking, KidsGood, HalfDone, Tight, Crowd, LeafHeld, LeafNode, Hollow, Payload, PackedLeaf.Image.Free, PackedLeaf.Image.Valid, PackedLeaf.Image.Entries;
      WalkingRoot(bt.store, bt.levels, bt.root, keys, nodes, bt.slots, bt.perNode);
      if prev.Some? {
        var fits, image := Compare(leaf, sector, j);
        if fits {
          hollow := Absorb(sector, image, orig, j);
          return;
        }
      }
      TightMore(nodes, r, j, bt.slots, bt.perNode);
      prev, hollow := Some(sector), false;
    }

    /** Whether the leaf fits into the one before it, and what that one would be then. */
    method Compare(leaf: PackedLeaf.Leaf, sector: nat, ghost j: nat) returns (fits: bool, image: PackedLeaf.Image)
      requires Stands(j + 1) && prev == Last(j) && prev.Some?
      requires leaf.Valid() && leaf.exc.Length == bt.slots && nodes[r].kids[j] == Tree.Leaf(sector, leaf.Entries())
      ensures (forall i :: 0 <= i < |nodes| ==> nodes[i].Index?) && (j > 0 || r > 0) && PrevLeaf(nodes, r, j).Leaf?
      ensures fits ==> LeafHeld(LeafBlock(image), PrevLeaf(nodes, r, j).es + nodes[r].kids[j].es, bt.slots)
      ensures !fits ==> Crowd(PrevLeaf(nodes, r, j), nodes[r].kids[j], bt.slots)
    {
      hide Walking, KidsGood, LeafHeld, LeafNode, Payload, PackedLeaf.Image.Free;
      WalkingRoot(bt.store, bt.levels, bt.root, keys, nodes, bt.slots, bt.perNode);
      PrevFacts(bt.store, bt.levels, bt.root, keys, nodes, r, j, bt.slots, bt.perNode);
      RoomIn(bt.store[prev.sector], PrevLeaf(nodes, r, j).es, bt.slots);
      fits, image := TryMerge(bt.store[prev.sector].image, leaf, bt.slots, PrevLeaf(nodes, r, j).es);
    }

    /** Blocks up to `r` are finished, and the last of them is held. */
    ghost predicate Between()
      reads this, bt
    {
      && bt.perNode >= 2 && bt.slots >= 128 && bt.levels == 2 && |path| == 2
      && Walking(bt.store, bt.levels, bt.root, keys, nodes, bt.slots, bt.perNode)
      && 1 <= r <= |nodes| && nodes[r - 1].kids != [] && path[0] == Step(bt.root, r)
      && hold == Some(nodes[r - 1].sector)
      && Exactly(bt.store, rest, whole, Footprint(nodes, bt.levels, bt.root))
    }

    /** Merges a finished block into the one before it if it fits there, or else holds it. */
    method FinishBlock(hollow: bool, ghost orig: Entries)
      requires bt.levels == 2 && |path| == 2
      requires !hollow ==> Stands(Cursor()) && Half(orig, Cursor()) && Cursor() == |nodes[r].kids| && prev == Last(Cursor()) && Packed(Cursor())
      requires hollow ==> Hollowed(path[1].sector) && Half(orig, 0) && prev == Last(0) && Packed(0)
      modifies this`path, this`hold, this`keys, this`nodes, this`r, bt`store
      ensures Packed(0)
      ensures Between() && Half(orig, 0) && prev == Last(0) && |nodes| - r == old(|nodes| - r) - if hollow then 0 else 1
    {
      hide Walking, KidsGood, Before, After, WithoutSnapshots, AllOrphans, LeafNode, Hollow, IndexRemoved, LeafHeld, Tight;
      var node := path[1].sector;
      if hold.Some? {
        if hollow {
          HollowBlocks(bt.store, bt.root, keys, nodes, r, node, bt.slots, bt.perNode);
        } else {
          FinishedBlocks(bt.store, bt.root, keys, nodes, r, bt.slots, bt.perNode);
        }
        if |bt.store[node].entries| <= bt.perNode - |bt.store[hold.sector].entries| {
          if hollow {
            DropHollow(orig);
          } else {
            JoinBlock(orig);
          }
          return;
        }
      }
      hold := Some(node);
      WalkingRoot(bt.store, bt.levels, bt.root, keys, nodes, bt.slots, bt.perNode);
      NextParts(nodes, r);
      TightNext(nodes, r, bt.slots, bt.perNode);
      r := r + 1;
    }

    /** Appends the current block's entries to the held one's and drops it. */
    method MergeBlock(ghost orig: Entries)
      requires |path| > 0 && hold.Some?
      requires var a, p, s := bt.store, hold.sector, path[|path| - 1].sector;
        && p in a && a[p].Node? && s in a && a[s].Node? && p != s && p != path[0].sector && s != path[0].sector && OnBlock(a, path[0])
      modifies this`path, bt`store
      ensures path == old(path)[0 := Step(old(path[0].sector), old(path[0].next) - 1)]
      ensures var a, b, p, s, root := old(bt.store), bt.store, hold.sector, old(path[|path| - 1].sector), old(path[0].sector);
        && p in b && b[p] == Node(a[p].entries + a[s].entries)
        && root in b && b[root] == Node(Dropped(a[root].entries, old(path[0].next) - 1))
        && Agree(a, b, a.Keys - {p, s, root}) && b.Keys == a.Keys - {s}
    {
      hide IndexRemoved;
      var node := path[|path| - 1].sector;
      bt.store := bt.store[hold.sector := Node(bt.store[hold.sector].entries + bt.store[node].entries)];
      assert OnBlock(bt.store, path[0]);
      RootRemoved(bt.store, path);
      RemoveIndex(0);
      bt.store := bt.store - {node};
    }

    method DropHollow(ghost orig: Entries)
      requires |path| == 2 && Hollowed(path[1].sector) && Half(orig, 0) && prev == Last(0)
      modifies this`path, bt`store
      ensures Between() && Half(orig, 0) && prev == Last(0)
    {
      hide Walking, KidsGood, Before, After, WithoutSnapshots, AllOrphans, LeafNode, Hollow;
      ghost var a, node := bt.store, path[1].sector;
      HollowBlocks(a, bt.root, keys, nodes, r, node, bt.slots, bt.perNode);
      MergeBlock(orig);
      HollowFoot(a, bt.root, keys, nodes, r, node, bt.slots, bt.perNode);
      Freed(a, bt.store, rest, whole, Footprint(nodes, 2, bt.root) + {node}, Footprint(nodes, 2, bt.root), node);
      HollowGone(a, bt.store, bt.root, keys, nodes, r, node, bt.slots, bt.perNode);
    }

    method JoinBlock(ghost orig: Entries)
      requires bt.levels == 2 && r > 0 && Stands(Cursor()) && Half(orig, Cursor()) && Cursor() == |nodes[r].kids| && prev == Last(Cursor())
      requires |nodes[r - 1].kids| + |nodes[r].kids| <= bt.perNode && Packed(Cursor())
      modifies this`path, this`keys, this`nodes, bt`store
      ensures Packed(0)
      ensures |path| == 2 && Between() && Half(orig, 0) && prev == Last(0) && |nodes| == old(|nodes|) - 1
    {
      hide Walking, KidsGood, Before, After, WithoutSnapshots, AllOrphans, LeafNode, LeafHeld, AllFoot, Tight;
      ghost var a, was := bt.store, nodes;
      FinishedBlocks(a, bt.root, keys, nodes, r, bt.slots, bt.perNode);
      InFoot(a, 2, bt.root, keys, nodes, r, 0, bt.slots, bt.perNode);
      MergeBlock(orig);
      ghost var s, foot := nodes[r].sector, Footprint(nodes, 2, bt.root);
      keys, nodes := BlockStep(a, bt.store, bt.root, keys, nodes, r, bt.slots, bt.perNode);
      Freed(a, bt.store, rest, whole, foot, Footprint(nodes, 2, bt.root), s);
      WalkingRoot(bt.store, bt.levels, bt.root, keys, nodes, bt.slots, bt.perNode);
      TightMerged(was, nodes, r, bt.slots, bt.perNode);
    }

    /** Every leaf has been walked over. */
    ghost predicate Finished(orig: Entries)
      reads this, bt
    {
      && bt.perNode >= 2 && bt.slots >= 128
      && Walking(bt.store, bt.levels, bt.root, keys, nodes, bt.slots, bt.perNode)
      && AllContents(nodes) == WithoutSnapshots(orig, mask) && freed == AllOrphans(orig, mask)
      && (bt.levels == 2 ==> hold == Some(nodes[|nodes| - 1].sector))
      && Exactly(bt.store, rest, whole, Footprint(nodes, bt.levels, bt.root))
      && LeavesCrowded(AllLeaves(nodes), bt.slots) && BlocksCrowded(nodes, |nodes|, bt.perNode)
    }

    /** There is a leaf to come, and everything before it has been dealt with. */
    ghost predicate Going(orig: Entries)
      reads this, bt
    {
      Stands(Cursor()) && Half(orig, Cursor()) && prev == Last(Cursor()) && Cursor() < |nodes[r].kids| && Packed(Cursor())
    }

    /** What is left: blocks, and leaves of the current block. */
    ghost function Blocks(): nat
      reads this
    {
      if r <= |nodes| then |nodes| - r else 0
    }

    ghost function Leaves(): nat
      reads this
    {
      if r < |nodes| && nodes[r].Index? && Cursor() <= |nodes[r].kids| then |nodes[r].kids| - Cursor() else 0
    }

    /** Deals with one leaf, and with its block if it was the last one there. */
    method Next(ghost orig: Entries) returns (done: bool)
      requires Going(orig)
      modifies this`path, this`prev, this`hold, this`freed, this`keys, this`nodes, this`r, this`seen, bt`store
      ensures done ==> Finished(orig)
      ensures !done ==> Going(orig) && (Blocks() < old(Blocks()) || (Blocks() == old(Blocks()) && Leaves() < old(Leaves())))
    {
      hide Walking, KidsGood, Half, LeafNode, Hollow, LeafHeld, Packed, LeavesCrowded, BlocksCrowded;
      WalkingRoot(bt.store, bt.levels, bt.root, keys, nodes, bt.slots, bt.perNode);
      var hollow := DoLeaf(orig, Cursor());
      if !hollow {
        WalkingRoot(bt.store, bt.levels, bt.root, keys, nodes, bt.slots, bt.perNode);
        StandingBlock(bt.store, bt.levels, bt.root, keys, nodes, r, bt.slots, bt.perNode);
        if path[bt.levels - 1].next < |bt.store[path[bt.levels - 1].sector].entries| {
          return false;
        }
        if bt.levels == 1 {
          NowFinished(orig);
          return true;
        }
      }
      FinishBlock(hollow, orig);
      done := Push(orig);
    }

    /** With one level, the walk ends with its only block. */
    lemma NowFinished(orig: Entries)
      requires bt.levels == 1 && Stands(Cursor()) && Half(orig, Cursor()) && Cursor() == |nodes[r].kids| && Packed(Cursor())
      ensures Finished(orig)
    {
      hide KidsGood, LeafNode, Before, After, AllContents, WithoutSnapshots, AllOrphans, Tight, LeavesCrowded, BlocksCrowded;
      WalkingRoot(bt.store, bt.levels, bt.root, keys, nodes, bt.slots, bt.perNode);
      TightEnd(nodes, r, Cursor(), bt.slots, bt.perNode);
      AllSeen(nodes, seen, orig);
    }

    /** Deals with the leaf at the cursor. */
    method DoLeaf(ghost orig: Entries, ghost j: nat) returns (hollow: bool)
      requires Stands(j) && Half(orig, j) && prev == Last(j) && j < |nodes[r].kids| && Packed(j)
      modifies this`path, this`prev, this`freed, this`keys, this`nodes, this`seen, bt`store
      ensures if hollow then Packed(0) else Packed(Cursor())
      ensures !hollow ==> Stands(Cursor()) && Half(orig, Cursor()) && prev == Last(Cursor())
      ensures !hollow ==> |nodes| == old(|nodes|) && |nodes[r].kids| - Cursor() == old(|nodes[r].kids|) - (j + 1)
      ensures hollow ==> |path| == bt.levels == 2 && Hollowed(path[1].sector) && Half(orig, 0) && prev == Last(0) && |nodes| == old(|nodes|) - 1
    {
      hide Walking, KidsGood, Half, LeafNode, Hollow, LeafHeld, Packed;
      WalkingRoot(bt.store, bt.levels, bt.root, keys, nodes, bt.slots, bt.perNode);
      var leaf, sector := Thin(orig, j);
      WalkingRoot(bt.store, bt.levels, bt.root, keys, nodes, bt.slots, bt.perNode);
      hollow := Settle(leaf, sector, orig, j);
    }

    /** A root with a single entry gives way to the block under it. */
    method DropLevels(ghost orig: Entries)
      requires Finished(orig)
      modifies bt`store, bt`root, bt`levels
      ensures Finished(orig) && bt.levels <= old(bt.levels)
    {
      hide Walking, AllContents, WithoutSnapshots, AllOrphans, LeavesCrowded, BlocksCrowded;
      WalkingRoot(bt.store, bt.levels, bt.root, keys, nodes, bt.slots, bt.perNode);
      if bt.levels == 2 {
        RootBlock(bt.store, bt.root, keys, nodes, bt.slots, bt.perNode);
      }
      while bt.levels > 1 && |bt.store[bt.root].entries| == 1
        invariant Finished(orig) && 1 <= bt.levels <= 2 && bt.levels <= old(bt.levels)
        invariant bt.levels == 2 ==> bt.root in bt.store && bt.store[bt.root].Node? && |bt.store[bt.root].entries| == |nodes|
        decreases bt.levels
      {
        LevelDropped(bt.store, bt.root, keys, nodes, bt.slots, bt.perNode);
        Freed(bt.store, bt.store - {bt.root}, rest, whole, Footprint(nodes, 2, bt.root), Footprint(nodes, 1, hold.sector), bt.root);
        bt.store := bt.store - {bt.root};
        bt.root := hold.sector;
        bt.levels := bt.levels - 1;
      }
    }

    /** Goes on to the next block, if there is one. */
    method Push(ghost orig: Entries) returns (done: bool)
      requires Between() && Half(orig, 0) && prev == Last(0) && Packed(0)
      modifies this`path
      ensures done ==> Finished(orig)
      ensures !done ==> Going(orig)
    {
      hide Walking, KidsGood, WithoutSnapshots, AllOrphans, LeafNode, LeafHeld, AllContents, Tight, LeavesCrowded, BlocksCrowded;
      WalkingRoot(bt.store, bt.levels, bt.root, keys, nodes, bt.slots, bt.perNode);
      RootBlock(bt.store, bt.root, keys, nodes, bt.slots, bt.perNode);
      var entries := bt.store[bt.root].entries;
      if path[0].next == |entries| {
        AllSeen(nodes, seen, orig);
        TightEnd(nodes, r, 0, bt.slots, bt.perNode);
        return true;
      }
      StandingBlock(bt.store, bt.levels, bt.root, keys, nodes, r, bt.slots, bt.perNode);
      path := [Step(path[0].sector, path[0].next + 1), Step(entries[path[0].next].sector, 0)];
      done := false;
    }

    /** Writes the merged leaf and drops the other one and its index entry. */
    method Cut(sector: nat, image: PackedLeaf.Image, ghost j: nat)
      requires Stands(j + 1) && prev == Last(j) && prev.Some?
      requires nodes[r].kids[j].Leaf? && nodes[r].kids[j].sector == sector
      modifies this`path, bt`store
      ensures 1 <= bt.levels <= 2 && (forall i :: 0 <= i < |nodes| ==> nodes[i].Index?) && (j > 0 || r > 0)
      ensures j == 0 ==> bt.levels == 2
      ensures |path| == bt.levels && path == old(path)[bt.levels - 1 := Step(nodes[r].sector, j)]
      ensures bt.store.Keys == old(bt.store).Keys - {sector} && (bt.levels == 2 ==> bt.root != sector && bt.root != nodes[r].sector)
      ensures var a, b, node, p := old(bt.store), bt.store, nodes[r].sector, prev.sector;
        && node in a && a[node].Node? && j < |a[node].entries| == |nodes[r].kids|
        && p in b && b[p] == LeafBlock(image) && node in b && b[node] == Node(Dropped(a[node].entries, j))
        && (j == 0 && r > 0 && |a[node].entries| > 1 ==>
              && bt.root in a && a[bt.root].Node? && r < |a[bt.root].entries|
              && bt.root in b && b[bt.root] == Node(a[bt.root].entries[r := IndexEntry(a[node].entries[1].key, a[bt.root].entries[r].sector)])
              && Agree(a, b, a.Keys - {p, sector, node, bt.root}))
        && (j > 0 || r == 0 || |a[node].entries| <= 1 ==> Agree(a, b, a.Keys - {p, sector, node}))
    {
      hide Walking, IndexRemoved, OnBlock, Pivot, LeafNode, LeafHeld;
      WalkingRoot(bt.store, bt.levels, bt.root, keys, nodes, bt.slots, bt.perNode);
      ghost var a, was, node, p := bt.store, path, nodes[r].sector, PrevLeaf(nodes, r, j);
      CursorBlock(a, bt.levels, bt.root, keys, nodes, r, j, bt.slots, bt.perNode);
      PrevFacts(a, bt.levels, bt.root, keys, nodes, r, j, bt.slots, bt.perNode);
      assert PathTo(path, bt.levels, bt.root, node, r, j);
      PathBlocks(a, bt.levels, bt.root, keys, nodes, r, j, bt.slots, bt.perNode, path);
      bt.store := bt.store[prev.sector := LeafBlock(image)];
      SetAside(a, bt.store, p.sector, path, bt.levels);
      RemoveIndex(bt.levels - 1);
      bt.store := bt.store - {sector};
      MergedShape(a, bt.store, bt.levels, bt.root, node, r, j, was, p.sector, sector, LeafBlock(image));
    }

    /** Merges leaf `j`, just thinned, into the leaf before it, whose new contents are `image`. */
    method Absorb(sector: nat, image: PackedLeaf.Image, ghost orig: Entries, ghost j: nat) returns (hollow: bool)
      requires Stands(j + 1) && Half(orig, j + 1) && prev == Last(j) && prev.Some? && Packed(j)
      requires var kids := nodes[r].kids;
        && kids[j].Leaf? && kids[j].sector == sector && PrevLeaf(nodes, r, j).Leaf?
        && LeafHeld(LeafBlock(image), PrevLeaf(nodes, r, j).es + kids[j].es, bt.slots)
      modifies this`path, this`keys, this`nodes, bt`store
      ensures !hollow ==> Stands(j) && Half(orig, j) && prev == Last(j) && |nodes| == old(|nodes|) && |nodes[r].kids| == old(|nodes[r].kids|) - 1
      ensures hollow ==> j == 0 && |path| == bt.levels == 2 && Hollowed(path[1].sector) && Half(orig, 0) && prev == Last(0) && |nodes| == old(|nodes|) - 1
      ensures Packed(j)
    {
      hide Walking, KidsGood, Before, After, WithoutSnapshots, AllOrphans, LeafHeld, Sorted, Within, AllFoot, Hollow, LeafNode, Tight;
      WalkingRoot(bt.store, bt.levels, bt.root, keys, nodes, bt.slots, bt.perNode);
      ghost var a, node, p := bt.store, nodes[r].sector, PrevLeaf(nodes, r, j);
      ghost var m := Tree.Leaf(p.sector, p.es + nodes[r].kids[j].es);
      CursorBlock(a, bt.levels, bt.root, keys, nodes, r, j, bt.slots, bt.perNode);
      Cut(sector, image, j);
      hollow := |bt.store[path[bt.levels - 1].sector].entries| == 0;
      if j > 0 {
        NowJoined(a, orig, j, m);
      } else if |nodes[r].kids| > 1 {
        NowShifted(a, orig, m);
      } else {
        NowHollow(a, orig, m);
      }
    }

    /** The state of the walk after a merge within block `r`. */
    ghost method NowJoined(a: Store, orig: Entries, j: nat, m: Tree)
      requires bt.perNode >= 2 && bt.slots >= 128 && r < |nodes| && nodes[r].Index? && (r > 0 ==> nodes[r - 1].Index?)
      requires 1 <= j < |nodes[r].kids| && (r > 0 ==> nodes[r - 1].kids != []) && Half(orig, j + 1)
      requires 1 <= |path| == bt.levels <= 2 && path[bt.levels - 1] == Step(nodes[r].sector, j)
      requires (bt.levels == 2 ==> path[0] == Step(bt.root, r + 1)) && hold == if r == 0 then None else Some(nodes[r - 1].sector)
      requires var kids := nodes[r].kids;
        && kids[j - 1].Leaf? && kids[j].Leaf? && m.Leaf? && m.sector == kids[j - 1].sector && m.es == kids[j - 1].es + kids[j].es
        && m.sector in bt.store && LeafHeld(bt.store[m.sector], m.es, bt.slots)
        && Agree(a, bt.store, a.Keys - {m.sector, kids[j].sector, nodes[r].sector})
      requires var s := nodes[r].sector;
        s in a && a[s].Node? && j < |a[s].entries| && s in bt.store && bt.store[s] == Node(Dropped(a[s].entries, j))
      requires bt.store.Keys == a.Keys - {nodes[r].kids[j].sector} && (bt.levels == 2 ==> bt.root != nodes[r].kids[j].sector)
      requires Exactly(a, rest, whole, Footprint(nodes, bt.levels, bt.root))
      requires Walking(a, bt.levels, bt.root, keys, nodes, bt.slots, bt.perNode) && Packed(j)
      modifies this`nodes
      ensures Packed(j)
      ensures Stands(j) && Half(orig, j) && Last(j) == Some(m.sector)
      ensures |nodes| == old(|nodes|) && |nodes[r].kids| == old(|nodes[r].kids|) - 1
    {
      hide Walking, KidsGood, Before, After, LeafHeld, AllFoot, LeafNode, HalfDone, Footprint, Exactly, Hollow, Tight;
      WalkingRoot(a, bt.levels, bt.root, keys, nodes, bt.slots, bt.perNode);
      InFoot(a, bt.levels, bt.root, keys, nodes, r, j, bt.slots, bt.perNode);
      InPrint(nodes, bt.levels, bt.root);
      ghost var was := nodes;
      ghost var s, foot := nodes[r].kids[j].sector, Footprint(nodes, bt.levels, bt.root);
      nodes := JoinStep(a, bt.store, bt.levels, bt.root, keys, nodes, r, j, m, bt.slots, bt.perNode);
      Rearranged(was, j + 1, nodes, j, r, seen, orig, freed, mask);
      FootLeft(was, nodes, bt.levels, bt.root, s);
      Freed(a, bt.store, rest, whole, foot, Footprint(nodes, bt.levels, bt.root), s);
      WalkingRoot(bt.store, bt.levels, bt.root, keys, nodes, bt.slots, bt.perNode);
      TightJoined(was, nodes, r, j, m, was[r].kids[j].es, bt.slots, bt.perNode);
    }

    /** The state of the walk after a merge into block `r - 1`. */
    ghost method NowShifted(a: Store, orig: Entries, m: Tree)
      requires bt.perNode >= 2 && bt.slots >= 128 && 1 <= r < |nodes| && nodes[r].Index? && nodes[r - 1].Index?
      requires 2 <= |nodes[r].kids| && nodes[r - 1].kids != [] && Half(orig, 1)
      requires 1 <= |path| == bt.levels <= 2 && path[bt.levels - 1] == Step(nodes[r].sector, 0)
      requires (bt.levels == 2 ==> path[0] == Step(bt.root, r + 1)) && hold == Some(nodes[r - 1].sector)
      requires ShiftStore(a, bt.store, nodes[r - 1].kids[|nodes[r - 1].kids| - 1], nodes[r].kids[0], m, nodes[r].sector, bt.root, r, bt.slots)
      requires bt.store.Keys == a.Keys - {nodes[r].kids[0].sector} && bt.root != nodes[r].kids[0].sector
      requires Exactly(a, rest, whole, Footprint(nodes, bt.levels, bt.root))
      requires Walking(a, bt.levels, bt.root, keys, nodes, bt.slots, bt.perNode) && Packed(0)
      modifies this`keys, this`nodes
      ensures Packed(0)
      ensures Stands(0) && Half(orig, 0) && Last(0) == Some(m.sector)
      ensures |nodes| == old(|nodes|) && |nodes[r].kids| == old(|nodes[r].kids|) - 1
    {
      hide Walking, KidsGood, Before, After, LeafHeld, AllFoot, LeafNode, HalfDone, Footprint, Exactly, Hollow, Tight;
      WalkingRoot(a, bt.levels, bt.root, keys, nodes, bt.slots, bt.perNode);
      InFoot(a, bt.levels, bt.root, keys, nodes, r, 0, bt.slots, bt.perNode);
      InPrint(nodes, bt.levels, bt.root);
      ghost var was := nodes;
      ghost var s, foot := nodes[r].kids[0].sector, Footprint(nodes, bt.levels, bt.root);
      keys, nodes := CousinStep(a, bt.store, bt.root, keys, nodes, r, m, bt.slots, bt.perNode);
      Rearranged(was, 1, nodes, 0, r, seen, orig, freed, mask);
      FootLeft(was, nodes, bt.levels, bt.root, s);
      Freed(a, bt.store, rest, whole, foot, Footprint(nodes, bt.levels, bt.root), s);
      WalkingRoot(bt.store, bt.levels, bt.root, keys, nodes, bt.slots, bt.perNode);
      TightShifted(was, nodes, r, m, was[r].kids[0].es, bt.slots, bt.perNode);
    }

    /** The same if that leaves block `r` without leaves. */
    ghost method NowHollow(a: Store, orig: Entries, m: Tree)
      requires bt.perNode >= 2 && bt.slots >= 128 && 1 <= r < |nodes| && nodes[r].Index? && nodes[r - 1].Index?
      requires 1 == |nodes[r].kids| && nodes[r - 1].kids != [] && Half(orig, 1)
      requires |path| == bt.levels == 2 && path[1] == Step(nodes[r].sector, 0) && path[0] == Step(bt.root, r + 1)
      requires hold == Some(nodes[r - 1].sector)
      requires var p, s, node := PrevLeaf(nodes, r, 0), nodes[r].kids[0], nodes[r].sector;
        && p.Leaf? && s.Leaf? && m.Leaf? && m.sector == p.sector && m.es == p.es + s.es
        && m.sector in bt.store && LeafHeld(bt.store[m.sector], m.es, bt.slots)
        && Agree(a, bt.store, a.Keys - {m.sector, s.sector, node})
        && node in bt.store && bt.store[node] == Node([])
      requires bt.store.Keys == a.Keys - {nodes[r].kids[0].sector} && bt.root != nodes[r].kids[0].sector && bt.root != nodes[r].sector
      requires Exactly(a, rest, whole, Footprint(nodes, bt.levels, bt.root)) && nodes[r].sector != nodes[r].kids[0].sector
      requires Walking(a, bt.levels, bt.root, keys, nodes, bt.slots, bt.perNode) && Packed(0)
      modifies this`keys, this`nodes
      ensures Packed(0)
      ensures Hollowed(path[1].sector) && Half(orig, 0) && Last(0) == Some(m.sector) && |nodes| == old(|nodes|) - 1
    {
      hide Walking, KidsGood, Before, After, LeafHeld, AllFoot, LeafNode, HalfDone, Footprint, Exactly, Hollow, Tight;
      WalkingRoot(a, bt.levels, bt.root, keys, nodes, bt.slots, bt.perNode);
      InFoot(a, bt.levels, bt.root, keys, nodes, r, 0, bt.slots, bt.perNode);
      InPrint(nodes, bt.levels, bt.root);
      ghost var was := nodes;
      ghost var s, foot, node := nodes[r].kids[0].sector, Footprint(nodes, bt.levels, bt.root), nodes[r].sector;
      keys, nodes := HollowStep(a, bt.store, bt.root, keys, nodes, r, m, bt.slots, bt.perNode);
      Rearranged(was, 1, nodes, 0, r, seen, orig, freed, mask);
      HollowNodes(bt.store, bt.root, keys, nodes, r, node, bt.slots, bt.perNode);
      TightShifted(was, nodes, r, m, was[r].kids[0].es, bt.slots, bt.perNode);
      FootHollow(was, nodes, bt.root, node, s);
      Freed(a, bt.store, rest, whole, foot, Footprint(nodes, 2, bt.root) + {node}, s);
    }

    /** Starts at the first leaf. */
    constructor (bt: Btree, mask: Mask)
      requires bt.Valid() && bt.levels <= 2
      ensures this.bt == bt && this.mask == mask && rest == bt.store.Keys - Foot(bt.tree) && whole == Foot(bt.tree)
      ensures Stands(0) && Half(Contents(bt.tree), 0) && prev == Last(0) && Packed(0)
    {
      hide Tight, Good, Fits, Walking, Contents, AllContents, Follows, WithoutSnapshots, AllOrphans, LeafHeld, LeafNode, Foot, AllFoot, Footprint, OnTrail, Before, After;
      var found, leaf, tr := bt.Probe(0);
      FirstPath(bt.store, found, tr, bt.levels, bt.slots);
      this.bt, this.mask := bt, mask;
      prev, hold, freed, seen, r := None, None, [], [], 0;
      rest, whole := bt.store.Keys - Foot(bt.tree), Foot(bt.tree);
      path := found[bt.levels - 1 := found[bt.levels - 1].(next := 0)];
      ghost var t := bt.tree;
      if bt.levels == 1 {
        StartOne(bt.store, t, bt.slots, bt.perNode);
        keys, nodes := [0], [t];
        StartHalf([t], mask);
      } else {
        StartTwo(bt.store, t, bt.slots, bt.perNode);
        keys, nodes := t.keys, t.kids;
        StartHalf(t.kids, mask);
      }
      FootHeldGood(bt.store, t, bt.slots, bt.levels, 0, LIMIT);
      TightStart(if bt.levels == 1 then [t] else t.kids, bt.slots, bt.perNode);
    }

    method RemoveIndex(level: nat)
      requires level < |path| && forall i :: 0 <= i <= level ==> OnBlock(bt.store, path[i])
      requires forall i :: 0 <= i < level ==> path[i].sector != path[level].sector
      modifies this`path, bt`store
      ensures bt.store == IndexRemoved(old(bt.store), old(path), level) && bt.store.Keys == old(bt.store).Keys
      ensures path == old(path)[level := Step(old(path[level].sector), old(path[level].next) - 1)]
    {
      var step := path[level];
      assert OnBlock(bt.store, step);
      var entries := bt.store[step.sector].entries;
      bt.store := bt.store[step.sector := Node(Dropped(entries, step.next - 1))];
      path := path[level := Step(step.sector, step.next - 1)];
      if step.next == |entries| {
        return;
      }
      var pivot := entries[step.next].key;
      if step.next == 1 && level > 0 {
        var i := level;
        while i > 0 && path[i - 1].next == 1
          invariant i <= level && Pivot(old(path), level) == Pivot(old(path), i)
        {
          i := i - 1;
        }
        if i == 0 {
          return;
        }
        var above := path[i - 1];
        assert OnBlock(old(bt.store), above);
        var e := bt.store[above.sector].entries;
        bt.store := bt.store[above.sector := Node(e[above.next - 1 := IndexEntry(pivot, e[above.next - 1].sector)])];
      }
    }
  }

  /** The tree once more. */
  lemma EndWalking(store: Store, levels: nat, root: nat, keys: seq<nat>, nodes: seq<Tree>, slots: nat, n: nat) returns (t: Tree)
    requires Walking(store, levels, root, keys, nodes, slots, n)
    ensures t == if levels == 1 then nodes[0] else Index(root, keys, nodes)
    ensures t.sector == root && Good(store, t, slots, levels, 0, LIMIT) && Fits(t, n) && Contents(t) == AllContents(nodes)
    ensures Foot(t) == Footprint(nodes, levels, root)
  {
    if levels == 1 {
      t := nodes[0];
      NodeAt(store, keys, nodes, 0, slots);
      SingleKid(store, t, slots);
      assert nodes == [t];
    } else {
      t := Index(root, keys, nodes);
      MakeGood(store, t, slots, 2, 0, LIMIT);
    }
  }

  /** Removes the snapshots of `mask` from the whole tree. What remains is exactly what was there
      with those snapshots taken out of every exception; the chunks to be freed are exactly those
      left without a sharer, each once. The tree is packed: no leaf would fit into the leaf before it,
      and no block over leaves into the block before it. */
  method DeleteTree(bt: Btree, mask: Mask) returns (freed: seq<nat>)
    requires bt.Valid() && bt.levels <= 2
    modifies bt
    ensures bt.Valid() && bt.levels <= old(bt.levels)
    ensures Contents(bt.tree) == WithoutSnapshots(old(Contents(bt.tree)), mask)
    ensures freed == AllOrphans(old(Contents(bt.tree)), mask)
    ensures Foot(bt.tree) <= bt.store.Keys && bt.store.Keys - Foot(bt.tree) == old(bt.store.Keys - Foot(bt.tree))
    ensures Foot(bt.tree) <= old(Foot(bt.tree))
    ensures 1 <= bt.levels <= 2 && LeavesCrowded(LeavesOf(bt.tree, bt.levels), bt.slots)
    ensures bt.levels == 2 ==> bt.tree.Index? && BlocksCrowded(bt.tree.kids, |bt.tree.kids|, bt.perNode)
  {
    hide LeavesCrowded, BlocksCrowded, AllLeaves, Tight, Good, Fits, Walking, Contents, AllContents, WithoutSnapshots, AllOrphans, Before, After;
    ghost var orig := Contents(bt.tree);
    var w := new Walk(bt, mask);
    WalkingRoot(bt.store, bt.levels, bt.root, w.keys, w.nodes, bt.slots, bt.perNode);
    var done := false;
    while !done
      invariant w.rest == old(bt.store.Keys - Foot(bt.tree)) && w.whole == old(Foot(bt.tree))
      invariant fresh(w) && w.bt == bt && w.mask == mask && bt.levels == old(bt.levels)
      invariant if done then w.Finished(orig) else w.Going(orig)
      decreases !done, w.Blocks(), w.Leaves()
    {
      done := w.Next(orig);
    }
    freed := w.freed;
    w.DropLevels(orig);
    WalkingRoot(bt.store, bt.levels, bt.root, w.keys, w.nodes, bt.slots, bt.perNode);
    bt.tree := EndWalking(bt.store, bt.levels, bt.root, w.keys, w.nodes, bt.slots, bt.perNode);
    LeavesAre(bt.tree, bt.levels, w.nodes);
  }

  /** The leaves of a tree of one or two index levels. */
  ghost function LeavesOf(t: Tree, levels: nat): seq<Tree> {
    AllLeaves(if levels == 1 then [t] else KidsOf(t))
  }

  lemma LeavesAre(t: Tree, levels: nat, nodes: seq<Tree>)
    requires if levels == 1 then nodes == [t] else t.Index? && t.kids == nodes
    ensures LeavesOf(t, levels) == AllLeaves(nodes)
  {
  }
}
