/** The walk itself, for trees of one or two index levels. */
module DeleteSnapshots {
  import opened Exceptions
  import opened TreeSpec
  import opened ExceptionTree
  import opened DeleteWalk

  // Removing snapshots piece by piece

  lemma {:induction false} RemovalConcat(a: Entries, b: Entries, mask: Mask)
    ensures WithoutSnapshots(a + b, mask) == WithoutSnapshots(a, mask) + WithoutSnapshots(b, mask)
    ensures AllOrphans(a + b, mask) == AllOrphans(a, mask) + AllOrphans(b, mask)
  {
    hide Without, Orphans, WithoutSnapshots, AllOrphans;
    if a == [] {
      assert a + b == b;
      RemovalOfNone(mask);
    } else {
      assert (a + b)[1..] == a[1..] + b && (a + b)[0] == a[0];
      RemovalConcat(a[1..], b, mask);
      RemovalStep(a, mask);
      RemovalStep(a + b, mask);
    }
  }

  lemma RemovalOfNone(mask: Mask)
    ensures WithoutSnapshots([], mask) == [] && AllOrphans([], mask) == []
  {
  }

  lemma RemovalStep(es: Entries, mask: Mask)
    requires es != []
    ensures WithoutSnapshots(es, mask) == Kept(es[0], mask) + WithoutSnapshots(es[1..], mask)
    ensures AllOrphans(es, mask) == Orphans(es[0].list, mask) + AllOrphans(es[1..], mask)
  {
  }

  ghost function Kept(e: Entry, mask: Mask): Entries {
    var kept := Without(e.list, mask);
    if kept != [] then [Entry(e.chunk, kept)] else []
  }

  lemma {:induction false} RemovalWithin(es: Entries, mask: Mask, lo: nat, hi: nat)
    requires Sorted(es) && Within(es, lo, hi)
    ensures Sorted(WithoutSnapshots(es, mask)) && Within(WithoutSnapshots(es, mask), lo, hi)
  {
    WithoutSnapshotsBound(es, mask, lo - 1);
    RemovalBelow(es, mask, hi);
  }

  lemma {:induction false} RemovalBelow(es: Entries, mask: Mask, hi: nat)
    requires forall i :: 0 <= i < |es| ==> es[i].chunk < hi
    ensures var r := WithoutSnapshots(es, mask); forall i :: 0 <= i < |r| ==> r[i].chunk < hi
  {
    if es != [] {
      assert forall i :: 0 <= i < |es[1..]| ==> es[1..][i] == es[i + 1];
      RemovalBelow(es[1..], mask, hi);
      hide WithoutSnapshots, Without;
      WithoutSnapshotsStep(es, mask);
    }
  }

  // Where the walk stands

  /** Index blocks over leaves, under the root's separators. With one level there is a single such
      block, which is the root itself. */
  ghost predicate Walking(store: Store, levels: nat, root: nat, keys: seq<nat>, nodes: seq<Tree>, slots: nat, n: nat) {
    && KidsGood(store, keys, nodes, slots, 2, 0, LIMIT) && 1 <= |nodes| == |keys|
    && (forall i :: 0 <= i < |nodes| ==> LeafNode(nodes[i], n))
    && RootHeld(store, levels, root, keys, nodes, n)
  }

  ghost predicate RootHeld(store: Store, levels: nat, root: nat, keys: seq<nat>, nodes: seq<Tree>, n: nat) {
    && (levels == 1 || levels == 2)
    && (levels == 1 ==> |nodes| == 1 && nodes[0].sector == root)
    && (levels == 2 ==> root in store && NodeHeld(store[root], keys, nodes) && root !in AllFoot(nodes) && |nodes| <= n)
  }

  /** What has been walked over, up to leaf `j` of block `r`, and what is still to come. */
  ghost function Before(nodes: seq<Tree>, r: nat, j: nat): Entries
    requires r <= |nodes|
  {
    AllContents(nodes[..r]) + if r < |nodes| && nodes[r].Index? && j <= |nodes[r].kids| then AllContents(nodes[r].kids[..j]) else []
  }

  ghost function After(nodes: seq<Tree>, r: nat, j: nat): Entries
    requires r <= |nodes|
  {
    if r < |nodes| && nodes[r].Index? && j <= |nodes[r].kids| then AllContents(nodes[r].kids[j..]) + AllContents(nodes[r + 1..])
    else AllContents(nodes[r..])
  }

  lemma NodeAt(store: Store, keys: seq<nat>, nodes: seq<Tree>, i: nat, slots: nat)
    requires KidsGood(store, keys, nodes, slots, 2, 0, LIMIT) && i < |nodes| == |keys|
    ensures Good(store, nodes[i], slots, 1, Low(keys, i, 0), High(keys, i, LIMIT))
    ensures Foot(nodes[i]) <= AllFoot(nodes) <= store.Keys
    ensures nodes[i].Index? ==> (i >= 1 ==> FirstKey(nodes[i]) == keys[i])
  {
    hide Ordered, AllFoot, Foot, Distinct, AllDistinct, Held;
    KidOrdered(Index(0, keys, nodes), i, 2, 0, LIMIT);
    AroundKid(nodes, i);
    AllHeldSplit(store, nodes, i, slots);
    AllFootHeld(store, nodes, slots);
    assert nodes[i..][0] == nodes[i];
  }

  lemma {:induction false} Apart(nodes: seq<Tree>, i: nat, k: nat)
    requires AllDistinct(nodes) && i < k < |nodes|
    ensures Foot(nodes[i]) !! Foot(nodes[k])
  {
    hide AllDistinct, Foot, AllFoot;
    AroundKid(nodes, k);
    RunFoot(nodes, 0, k, i);
    assert nodes[0..k] == nodes[..k];
  }

  lemma GoodFrame(a: Store, b: Store, t: Tree, slots: nat, depth: nat, lo: nat, hi: nat)
    requires Good(a, t, slots, depth, lo, hi) && Agree(a, b, Foot(t))
    ensures Good(b, t, slots, depth, lo, hi)
  {
    HeldFrame(a, b, t, slots);
  }

  // One block replaced

  /** Block `r` edited over its own blocks. */
  lemma NodeEdited(a: Store, b: Store, levels: nat, root: nat, keys: seq<nat>, nodes: seq<Tree>, r: nat, t': Tree, slots: nat, n: nat)
    requires Walking(a, levels, root, keys, nodes, slots, n) && r < |nodes|
    requires LeafNode(t', n) && Good(b, t', slots, 1, Low(keys, r, 0), High(keys, r, LIMIT)) && Foot(t') <= Foot(nodes[r])
    requires t'.sector == nodes[r].sector && FirstKey(t') == FirstKey(nodes[r])
    requires Agree(a, b, a.Keys - Foot(nodes[r]))
    ensures Walking(b, levels, root, keys, nodes[r := t'], slots, n)
    ensures AllFoot(nodes[r := t']) == AllFoot(nodes) - (Foot(nodes[r]) - Foot(t'))
  {
    hide Ordered, AllFoot, Foot, Distinct, AllDistinct, Held, AllHeld, FirstKey;
    NodeAt(a, keys, nodes, r, slots);
    OneOrdered(keys, nodes, r, t', 2, 0, LIMIT);
    RunFoot(nodes, r, r + 1, r);
    SingleKid(b, t', slots);
    SingleKid(a, nodes[r], slots);
    assert nodes[r..r + 1] == [nodes[r]];
    assert Spliced(nodes, r, r + 1, [t']) == nodes[r := t'];
    SplicedGood(a, b, keys, nodes, r, r + 1, keys, [t'], slots, 2, 0, LIMIT);
  }

  lemma EditedParts(nodes: seq<Tree>, r: nat, t': Tree, j: nat)
    requires r < |nodes| && t'.Index? && j <= |t'.kids|
    ensures Before(nodes[r := t'], r, j) == AllContents(nodes[..r]) + AllContents(t'.kids[..j])
    ensures After(nodes[r := t'], r, j) == AllContents(t'.kids[j..]) + AllContents(nodes[r + 1..])
  {
    assert nodes[r := t'][..r] == nodes[..r] && nodes[r := t'][r + 1..] == nodes[r + 1..];
  }

  lemma KidParts(nodes: seq<Tree>, r: nat, j: nat, n: nat)
    requires r < |nodes| && LeafNode(nodes[r], n) && j < |nodes[r].kids|
    ensures Before(nodes, r, j + 1) == Before(nodes, r, j) + nodes[r].kids[j].es
    ensures After(nodes, r, j) == nodes[r].kids[j].es + After(nodes, r, j + 1)
  {
    var kids := nodes[r].kids;
    AppendKid(kids, j);
    assert kids[j..][1..] == kids[j + 1..] && kids[j..][0] == kids[j];
    assert AllContents(nodes[..r]) + (AllContents(kids[..j]) + kids[j].es) == AllContents(nodes[..r]) + AllContents(kids[..j]) + kids[j].es;
    assert kids[j].es + AllContents(kids[j + 1..]) + AllContents(nodes[r + 1..]) == kids[j].es + (AllContents(kids[j + 1..]) + AllContents(nodes[r + 1..]));
  }

  /** The leaf at the cursor rewritten, and stepped over. */
  lemma LeafStep(a: Store, b: Store, levels: nat, root: nat, keys: seq<nat>, nodes: seq<Tree>, r: nat, j: nat, m: Tree, slots: nat, n: nat)
      returns (nodes': seq<Tree>)
    requires Walking(a, levels, root, keys, nodes, slots, n) && r < |nodes| && j < |nodes[r].kids|
    requires m.Leaf? && m.sector == nodes[r].kids[j].sector && m.sector in b && LeafHeld(b[m.sector], m.es, slots)
    requires forall lo, hi :: Sorted(nodes[r].kids[j].es) && Within(nodes[r].kids[j].es, lo, hi) ==> Sorted(m.es) && Within(m.es, lo, hi)
    requires Agree(a, b, a.Keys - {m.sector})
    ensures Walking(b, levels, root, keys, nodes', slots, n) && AllFoot(nodes') == AllFoot(nodes)
    ensures |nodes'| == |nodes| && LeafNode(nodes'[r], n) && nodes'[r].sector == nodes[r].sector && |nodes'[r].kids| == |nodes[r].kids|
    ensures nodes' == nodes[r := Index(nodes[r].sector, nodes[r].keys, nodes[r].kids[j := m])]
    ensures Before(nodes', r, j + 1) == Before(nodes, r, j) + m.es
    ensures After(nodes, r, j) == nodes[r].kids[j].es + After(nodes', r, j + 1)
  {
    hide Ordered, AllFoot, Foot, Distinct, AllDistinct, Held, AllHeld, Good, KidsGood, Contents, AllContents, LeafHeld, Before, After;
    var t := nodes[r];
    NodeAt(a, keys, nodes, r, slots);
    var lo, hi := Low(keys, r, 0), High(keys, r, LIMIT);
    NodeGood(a, t, slots, 1, lo, hi);
    LeafRange(a, t, j, slots, lo, hi);
    LeafOrdered(m, Low(t.keys, j, lo), High(t.keys, j, hi));
    LeafSet(a, b, t, j, m, slots, n, lo, hi);
    var t' := Index(t.sector, t.keys, t.kids[j := m]);
    assert FirstKey(t') == FirstKey(t);
    LeafInFoot(t, j);
    NodeEdited(a, b, levels, root, keys, nodes, r, t', slots, n);
    nodes' := nodes[r := t'];
    KidParts(nodes, r, j, n);
    KidParts(nodes', r, j, n);
    SetParts(nodes, r, j, m);
  }

  lemma SetParts(nodes: seq<Tree>, r: nat, j: nat, m: Tree)
    requires r < |nodes| && nodes[r].Index? && j < |nodes[r].kids|
    ensures var nodes' := nodes[r := Index(nodes[r].sector, nodes[r].keys, nodes[r].kids[j := m])];
      Before(nodes', r, j) == Before(nodes, r, j) && After(nodes', r, j + 1) == After(nodes, r, j + 1)
  {
    var t := nodes[r];
    var nodes' := nodes[r := Index(t.sector, t.keys, t.kids[j := m])];
    assert nodes'[..r] == nodes[..r] && nodes'[r + 1..] == nodes[r + 1..];
    assert nodes'[r].kids[..j] == t.kids[..j] && nodes'[r].kids[j + 1..] == t.kids[j + 1..];
  }

  lemma LeafOrdered(m: Tree, lo: nat, hi: nat)
    requires m.Leaf? && Sorted(m.es) && Within(m.es, lo, hi) && lo < hi
    ensures Ordered(m, 0, lo, hi)
  {
  }

  lemma LeafRange(a: Store, t: Tree, j: nat, slots: nat, lo: nat, hi: nat)
    requires t.Index? && Good(a, t, slots, 1, lo, hi) && j < |t.kids| == |t.keys| && t.kids[j].Leaf?
    ensures Sorted(t.kids[j].es) && Within(t.kids[j].es, Low(t.keys, j, lo), High(t.keys, j, hi)) && Low(t.keys, j, lo) < High(t.keys, j, hi)
    ensures t.kids[j].sector in a && LeafHeld(a[t.kids[j].sector], t.kids[j].es, slots)
  {
    KidGood(a, t, j, slots, 1, lo, hi);
    LeafFacts(a, t.kids[j], slots, Low(t.keys, j, lo), High(t.keys, j, hi));
  }

  lemma LeafInFoot(t: Tree, j: nat)
    requires t.Index? && j < |t.kids|
    ensures t.kids[j].sector in Foot(t) && t.sector in Foot(t)
  {
    AroundKid(t.kids, j);
  }

  /** The leaf behind the cursor joined to the one before it in the same block. */
  lemma JoinStep(a: Store, b: Store, levels: nat, root: nat, keys: seq<nat>, nodes: seq<Tree>, r: nat, j: nat, m: Tree, slots: nat, n: nat)
      returns (nodes': seq<Tree>)
    requires Walking(a, levels, root, keys, nodes, slots, n) && r < |nodes| && 1 <= j < |nodes[r].kids|
    requires var kids := nodes[r].kids;
      && m.Leaf? && m.sector == kids[j - 1].sector && m.es == kids[j - 1].es + kids[j].es
      && m.sector in b && LeafHeld(b[m.sector], m.es, slots)
      && Agree(a, b, a.Keys - {m.sector, nodes[r].sector, kids[j].sector})
    requires var s := nodes[r].sector;
      && s in a && a[s].Node? && j < |a[s].entries| && s in b && b[s] == Node(Dropped(a[s].entries, j))
    ensures Walking(b, levels, root, keys, nodes', slots, n) && AllFoot(nodes') == AllFoot(nodes) - {nodes[r].kids[j].sector}
    ensures |nodes'| == |nodes| && nodes'[r].sector == nodes[r].sector
    ensures |nodes'[r].kids| == |nodes[r].kids| - 1 && nodes'[r].kids[j - 1] == m && nodes'[r].kids[..j] == nodes[r].kids[..j][j - 1 := m]
    ensures forall i :: 0 <= i < r ==> nodes'[i] == nodes[i]
    ensures Before(nodes', r, j) == Before(nodes, r, j + 1) && After(nodes', r, j) == After(nodes, r, j + 1)
  {
    hide Ordered, AllFoot, Foot, Distinct, AllDistinct, Held, AllHeld, Good, KidsGood, Contents, AllContents, LeafHeld;
    var t := nodes[r];
    NodeAt(a, keys, nodes, r, slots);
    var lo, hi := Low(keys, r, 0), High(keys, r, LIMIT);
    NodeGood(a, t, slots, 1, lo, hi);
    LeafJoin(a, b, t, j, m, slots, n, lo, hi);
    var t' := Index(t.sector, Dropped(t.keys, j), Spliced(t.kids, j - 1, j + 1, [m]));
    LeafInFoot(t, j);
    LeafInFoot(t, j - 1);
    NodeEdited(a, b, levels, root, keys, nodes, r, t', slots, n);
    nodes' := nodes[r := t'];
    EditedParts(nodes, r, t', j);
    JoinedContents(t.kids, j, m);
  }

  lemma JoinedContents(kids: seq<Tree>, j: nat, m: Tree)
    requires 1 <= j < |kids| && kids[j - 1].Leaf? && kids[j].Leaf? && m.Leaf? && m.es == kids[j - 1].es + kids[j].es
    ensures var kids' := Spliced(kids, j - 1, j + 1, [m]);
      AllContents(kids'[..j]) == AllContents(kids[..j + 1]) && kids'[j..] == kids[j + 1..]
  {
    var kids' := Spliced(kids, j - 1, j + 1, [m]);
    AppendKid(kids, j - 1);
    AppendKid(kids, j);
    AppendKid(kids', j - 1);
    assert kids'[..j - 1] == kids[..j - 1] && kids'[j - 1] == m;
  }

  lemma LastKid(nodes: seq<Tree>, r: nat)
    requires 1 <= r <= |nodes| && nodes[r - 1].Index?
    ensures AllContents(nodes[..r]) == AllContents(nodes[..r - 1]) + AllContents(nodes[r - 1].kids)
  {
    AppendKid(nodes, r - 1);
  }

  /** The first leaf of a block joined to the last one of the block before: the block before. */
  lemma CousinLeft(a: Store, b: Store, t: Tree, m: Tree, es: Entries, key: nat, key': nat, slots: nat, n: nat, lo: nat)
    requires LeafNode(t, n) && Good(a, t, slots, 1, lo, key) && 1 <= |t.kids|
    requires Sorted(es) && Within(es, key, key') && key < key'
    requires var p := t.kids[|t.kids| - 1];
      && m.Leaf? && m.sector == p.sector && m.es == p.es + es && m.sector in b && LeafHeld(b[m.sector], m.es, slots)
      && Agree(a, b, Foot(t) - {p.sector})
    ensures var t' := Index(t.sector, t.keys, t.kids[|t.kids| - 1 := m]);
      && LeafNode(t', n) && Good(b, t', slots, 1, lo, key')
      && Foot(t') == Foot(t) && FirstKey(t') == FirstKey(t) && AllContents(t'.kids) == AllContents(t.kids) + es
  {
    hide Ordered, AllFoot, Foot, Distinct, AllDistinct, Held, AllHeld, Good, Contents, AllContents, LeafHeld;
    var j := |t.kids| - 1;
    NodeGood(a, t, slots, 1, lo, key);
    LeafRange(a, t, j, slots, lo, key);
    LeafInFoot(t, j);
    SortedConcat(t.kids[j].es, es, Low(t.keys, j, lo), key, key');
    LeafOrdered(m, Low(t.keys, j, lo), key');
    var c := a[m.sector := b[m.sector]];
    LeafExtendLast(a, c, t, m, slots, n, lo, key, key');
    var t' := Index(t.sector, t.keys, t.kids[j := m]);
    GoodFrame(c, b, t', slots, 1, lo, key');
    AppendKid(t.kids, j);
    LeafContents(t.kids[j]);
    assert t.kids[..j + 1] == t.kids;
    assert AllContents(t.kids[..j]) + (t.kids[j].es + es) == AllContents(t.kids[..j]) + t.kids[j].es + es;
  }

  /** The same: the block itself. */
  lemma CousinRight(a: Store, b: Store, u: Tree, slots: nat, n: nat, key: nat, hi: nat)
    requires LeafNode(u, n) && Good(a, u, slots, 1, key, hi) && 2 <= |u.kids| == |u.keys|
    requires Agree(a, b, Foot(u) - {u.kids[0].sector, u.sector})
    requires var s := u.sector; s in a && a[s].Node? && 0 < |a[s].entries| && s in b && b[s] == Node(Dropped(a[s].entries, 0))
    ensures var u' := Index(u.sector, u.keys[1..], u.kids[1..]);
      && LeafNode(u', n) && Good(b, u', slots, 1, u.keys[1], hi) && key < u.keys[1]
      && Foot(u') == Foot(u) - {u.kids[0].sector} && FirstKey(u') == u.keys[1] && AllContents(u.kids) == u.kids[0].es + AllContents(u'.kids)
    ensures Sorted(u.kids[0].es) && Within(u.kids[0].es, key, u.keys[1])
  {
    hide Ordered, AllFoot, Foot, Distinct, AllDistinct, Held, AllHeld, Good, Contents, AllContents, LeafHeld;
    NodeGood(a, u, slots, 1, key, hi);
    LeafRange(a, u, 0, slots, key, hi);
    FirstApart(u, slots, a, key, hi);
    LeafDropFirst(a, b, u, slots, n, key, hi);
    AroundKid(u.kids, 0);
    NoContents();
    LeafContents(u.kids[0]);
    assert u.kids[..0] == [];
    assert [] + u.kids[0].es == u.kids[0].es;
  }

  lemma FirstApart(u: Tree, slots: nat, a: Store, lo: nat, hi: nat)
    requires u.Index? && Good(a, u, slots, 1, lo, hi) && 1 <= |u.kids| && u.kids[0].Leaf?
    ensures AllFoot(u.kids[1..]) <= Foot(u) - {u.sector, u.kids[0].sector}
  {
    AroundKid(u.kids, 0);
  }

  // Two neighbouring blocks replaced

  lemma PairOfNodes(nodes: seq<Tree>, r: nat)
    requires 1 <= r < |nodes| && AllDistinct(nodes)
    ensures AllFoot(nodes[r - 1..r + 1]) == Foot(nodes[r - 1]) + Foot(nodes[r])
    ensures Foot(nodes[r - 1]) !! Foot(nodes[r])
    ensures AllContents(nodes[..r]) == AllContents(nodes[..r - 1]) + Contents(nodes[r - 1])
  {
    hide AllFoot, Foot, Distinct, AllDistinct, AllHeld, Held, Contents, AllContents;
    Apart(nodes, r - 1, r);
    PairOfKids(map[], nodes[r - 1], nodes[r], 0);
    assert nodes[r - 1..r + 1] == [nodes[r - 1], nodes[r]];
    AppendKid(nodes, r - 1);
  }

  lemma PairAtNodes(a: Store, keys: seq<nat>, nodes: seq<Tree>, r: nat, slots: nat)
    requires KidsGood(a, keys, nodes, slots, 2, 0, LIMIT) && 1 <= r < |nodes| == |keys| && nodes[r].Index?
    ensures Good(a, nodes[r - 1], slots, 1, Low(keys, r - 1, 0), keys[r]) && Good(a, nodes[r], slots, 1, keys[r], High(keys, r, LIMIT))
    ensures FirstKey(nodes[r]) == keys[r] && Foot(nodes[r - 1]) !! Foot(nodes[r])
    ensures AllFoot(nodes[r - 1..r + 1]) == Foot(nodes[r - 1]) + Foot(nodes[r]) <= AllFoot(nodes) <= a.Keys
    ensures AllContents(nodes[..r]) == AllContents(nodes[..r - 1]) + Contents(nodes[r - 1])
  {
    hide Ordered, AllFoot, Foot, Distinct, AllDistinct, Held, AllHeld, Good, Contents, AllContents, FirstKey;
    PairOfNodes(nodes, r);
    NodeAt(a, keys, nodes, r - 1, slots);
    NodeAt(a, keys, nodes, r, slots);
  }

  /** The boundary between blocks `r - 1` and `r` moved. */
  lemma BoundaryMoved(a: Store, b: Store, keys: seq<nat>, nodes: seq<Tree>, r: nat, key: nat, t': Tree, u': Tree, slots: nat, n: nat, root: nat)
    requires KidsGood(a, keys, nodes, slots, 2, 0, LIMIT) && 1 <= r < |nodes| == |keys|
    requires forall i :: 0 <= i < |nodes| ==> LeafNode(nodes[i], n)
    requires LeafNode(t', n) && LeafNode(u', n) && FirstKey(t') == FirstKey(nodes[r - 1]) && FirstKey(u') == key
    requires Good(b, t', slots, 1, Low(keys, r - 1, 0), key) && Good(b, u', slots, 1, key, High(keys, r, LIMIT))
    requires Foot(t') <= Foot(nodes[r - 1]) && Foot(u') <= Foot(nodes[r]) && root !in AllFoot(nodes)
    requires Agree(a, b, a.Keys - Foot(nodes[r - 1]) - Foot(nodes[r]) - {root})
    ensures var nodes' := Spliced(nodes, r - 1, r + 1, [t', u']);
      && KidsGood(b, keys[r := key], nodes', slots, 2, 0, LIMIT) && AllFoot(nodes') == AllFoot(nodes) - (Foot(nodes[r - 1]) + Foot(nodes[r]) - Foot(t') - Foot(u'))
      && (forall i :: 0 <= i < |nodes'| ==> LeafNode(nodes'[i], n))
  {
    hide Ordered, AllFoot, Foot, Distinct, AllDistinct, Held, AllHeld, FirstKey, Contents, AllContents;
    PairAtNodes(a, keys, nodes, r, slots);
    ShiftOrdered(keys, nodes, r, key, t', u', 2, 0, LIMIT);
    PairOfKids(b, t', u', slots);
    SplicedGood(a, b, keys, nodes, r - 1, r + 1, keys[r := key], [t', u'], slots, 2, 0, LIMIT);
  }

  /** Blocks `r - 1` and `r` replaced by one. */
  lemma BlocksJoined(a: Store, b: Store, keys: seq<nat>, nodes: seq<Tree>, r: nat, t': Tree, slots: nat, n: nat, root: nat)
    requires KidsGood(a, keys, nodes, slots, 2, 0, LIMIT) && 1 <= r < |nodes| == |keys|
    requires forall i :: 0 <= i < |nodes| ==> LeafNode(nodes[i], n)
    requires LeafNode(t', n) && FirstKey(t') == FirstKey(nodes[r - 1])
    requires Good(b, t', slots, 1, Low(keys, r - 1, 0), High(keys, r, LIMIT))
    requires Foot(t') <= Foot(nodes[r - 1]) + Foot(nodes[r]) && root !in AllFoot(nodes)
    requires Agree(a, b, a.Keys - Foot(nodes[r - 1]) - Foot(nodes[r]) - {root})
    ensures var nodes' := Spliced(nodes, r - 1, r + 1, [t']);
      && KidsGood(b, Dropped(keys, r), nodes', slots, 2, 0, LIMIT) && AllFoot(nodes') == AllFoot(nodes) - (Foot(nodes[r - 1]) + Foot(nodes[r]) - Foot(t'))
      && (forall i :: 0 <= i < |nodes'| ==> LeafNode(nodes'[i], n))
  {
    hide Ordered, AllFoot, Foot, Distinct, AllDistinct, Held, AllHeld, FirstKey, Contents, AllContents;
    PairAtNodes(a, keys, nodes, r, slots);
    JoinOrdered(keys, nodes, r, t', 2, 0, LIMIT);
    SingleKid(b, t', slots);
    SplicedGood(a, b, keys, nodes, r - 1, r + 1, Dropped(keys, r), [t'], slots, 2, 0, LIMIT);
  }

  lemma DroppedEntry(entries: seq<IndexEntry>, keys: seq<nat>, nodes: seq<Tree>, r: nat, t': Tree)
    requires NodeHeld(Node(entries), keys, nodes) && 1 <= r < |nodes| && t'.sector == nodes[r - 1].sector
    ensures NodeHeld(Node(Dropped(entries, r)), Dropped(keys, r), Spliced(nodes, r - 1, r + 1, [t']))
  {
  }

  lemma MovedEntry(entries: seq<IndexEntry>, keys: seq<nat>, nodes: seq<Tree>, r: nat, key: nat, t': Tree, u': Tree)
    requires NodeHeld(Node(entries), keys, nodes) && 1 <= r < |nodes| && t'.sector == nodes[r - 1].sector && u'.sector == nodes[r].sector
    ensures NodeHeld(Node(entries[r := IndexEntry(key, entries[r].sector)]), keys[r := key], Spliced(nodes, r - 1, r + 1, [t', u']))
  {
  }

  lemma MovedParts(nodes: seq<Tree>, r: nat, t': Tree, u': Tree, es: Entries, n: nat)
    requires 1 <= r < |nodes| && nodes[r - 1].Index? && LeafNode(nodes[r], n) && t'.Index? && u'.Index? && nodes[r].kids != []
    requires AllContents(t'.kids) == AllContents(nodes[r - 1].kids) + es && es == nodes[r].kids[0].es && u'.kids == nodes[r].kids[1..]
    ensures var nodes' := Spliced(nodes, r - 1, r + 1, [t', u']);
      Before(nodes', r, 0) == Before(nodes, r, 1) && After(nodes', r, 0) == After(nodes, r, 1)
  {
    hide AllContents, Before, After;
    var nodes' := Spliced(nodes, r - 1, r + 1, [t', u']);
    LastKid(nodes, r);
    LastKid(nodes', r);
    assert nodes'[..r - 1] == nodes[..r - 1] && nodes'[r - 1] == t' && nodes'[r] == u' && nodes'[r + 1..] == nodes[r + 1..];
    SingleKid(map[], nodes[r].kids[0], 0);
    LeafContents(nodes[r].kids[0]);
    assert nodes[r].kids[..1] == [nodes[r].kids[0]];
    NoContents();
    assert u'.kids[..0] == [] && u'.kids[0..] == u'.kids;
    Parts(nodes', r, 0);
    Parts(nodes, r, 1);
    Reassociate(AllContents(nodes[..r - 1]), AllContents(nodes[r - 1].kids), es);
  }

  lemma Parts(nodes: seq<Tree>, r: nat, j: nat)
    requires r < |nodes| && nodes[r].Index? && j <= |nodes[r].kids|
    ensures Before(nodes, r, j) == AllContents(nodes[..r]) + AllContents(nodes[r].kids[..j])
    ensures After(nodes, r, j) == AllContents(nodes[r].kids[j..]) + AllContents(nodes[r + 1..])
  {
  }

  lemma Reassociate(x: Entries, y: Entries, z: Entries)
    ensures x + (y + z) == x + y + z && x + (y + z) + [] == x + y + z && [] + z == z
  {
  }

  lemma JoinedParts(nodes: seq<Tree>, r: nat, t': Tree)
    requires 1 <= r < |nodes| && nodes[r - 1].Index? && nodes[r].Index? && t'.Index? && (r + 1 < |nodes| ==> nodes[r + 1].Index?)
    requires AllContents(t'.kids) == AllContents(nodes[r - 1].kids) + AllContents(nodes[r].kids)
    ensures var nodes' := Spliced(nodes, r - 1, r + 1, [t']);
      Before(nodes', r, 0) == Before(nodes, r, |nodes[r].kids|) && After(nodes', r, 0) == After(nodes, r, |nodes[r].kids|)
  {
    hide AllContents, Before, After;
    var nodes', kids := Spliced(nodes, r - 1, r + 1, [t']), nodes[r].kids;
    LastKid(nodes, r);
    LastKid(nodes', r);
    assert nodes'[..r - 1] == nodes[..r - 1] && nodes'[r - 1] == t' && nodes'[r..] == nodes[r + 1..];
    assert kids[..|kids|] == kids && kids[|kids|..] == [];
    Parts(nodes, r, |kids|);
    NoContents();
    StartParts(nodes', r);
    Reassociate(AllContents(nodes[..r - 1]), AllContents(nodes[r - 1].kids), AllContents(kids));
  }

  /** A cursor at the start of a block. */
  lemma StartParts(nodes: seq<Tree>, r: nat)
    requires r <= |nodes| && (r < |nodes| ==> nodes[r].Index?)
    ensures Before(nodes, r, 0) == AllContents(nodes[..r]) && After(nodes, r, 0) == AllContents(nodes[r..])
  {
    if r < |nodes| {
      assert nodes[r].kids[..0] == [] && nodes[r].kids[0..] == nodes[r].kids;
      assert nodes[r..][1..] == nodes[r + 1..] && nodes[r..][0] == nodes[r];
      IndexFoot(nodes[r]);
    }
  }

  /** A cursor at the end of a block stands at the start of the next. */
  lemma NextParts(nodes: seq<Tree>, r: nat)
    requires r < |nodes| && nodes[r].Index? && (r + 1 < |nodes| ==> nodes[r + 1].Index?)
    ensures Before(nodes, r + 1, 0) == Before(nodes, r, |nodes[r].kids|) && After(nodes, r + 1, 0) == After(nodes, r, |nodes[r].kids|)
  {
    var kids := nodes[r].kids;
    StartParts(nodes, r + 1);
    LastKid(nodes, r + 1);
    assert kids[..|kids|] == kids && kids[|kids|..] == [];
  }

  /** The leaf at the start of a block joined to the last leaf of the block before; the separator
      between the blocks becomes the key of the next leaf. */
  lemma CousinStep(a: Store, b: Store, root: nat, keys: seq<nat>, nodes: seq<Tree>, r: nat, m: Tree, slots: nat, n: nat)
      returns (keys': seq<nat>, nodes': seq<Tree>)
    requires Walking(a, 2, root, keys, nodes, slots, n) && 1 <= r < |nodes| && 2 <= |nodes[r].kids| && nodes[r - 1].kids != []
    requires var p, s, node := nodes[r - 1].kids[|nodes[r - 1].kids| - 1], nodes[r].kids[0], nodes[r].sector;
      && m.Leaf? && m.sector == p.sector && m.es == p.es + s.es && m.sector in b && LeafHeld(b[m.sector], m.es, slots)
      && Agree(a, b, a.Keys - {m.sector, s.sector, node, root})
      && node in a && a[node].Node? && 1 < |a[node].entries| && node in b && b[node] == Node(Dropped(a[node].entries, 0))
      && root in a && a[root].Node? && r < |a[root].entries|
      && root in b && b[root] == Node(a[root].entries[r := IndexEntry(a[node].entries[1].key, a[root].entries[r].sector)])
    ensures Walking(b, 2, root, keys', nodes', slots, n) && AllFoot(nodes') == AllFoot(nodes) - {nodes[r].kids[0].sector}
    ensures |nodes'| == |nodes| && nodes'[r].sector == nodes[r].sector && nodes'[r].kids == nodes[r].kids[1..]
    ensures nodes'[r - 1].sector == nodes[r - 1].sector && nodes'[r - 1].kids == nodes[r - 1].kids[|nodes[r - 1].kids| - 1 := m]
    ensures forall i :: 0 <= i < r - 1 ==> nodes'[i] == nodes[i]
    ensures Before(nodes', r, 0) == Before(nodes, r, 1) && After(nodes', r, 0) == After(nodes, r, 1)
  {
    hide Ordered, AllFoot, Foot, Distinct, AllDistinct, Held, AllHeld, Good, KidsGood, Contents, AllContents, LeafHeld, Before, After;
    var t, u, lo, hi := nodes[r - 1], nodes[r], Low(keys, r - 1, 0), High(keys, r, LIMIT);
    KidsDistinct(a, keys, nodes, slots, 2, 0, LIMIT);
    PairAtNodes(a, keys, nodes, r, slots);
    NodeGood(a, u, slots, 1, keys[r], hi);
    LeafInFoot(t, |t.kids| - 1);
    LeafInFoot(u, 0);
    CousinRight(a, b, u, slots, n, keys[r], hi);
    CousinLeft(a, b, t, m, u.kids[0].es, keys[r], u.keys[1], slots, n, lo);
    var t', u' := Index(t.sector, t.keys, t.kids[|t.kids| - 1 := m]), Index(u.sector, u.keys[1..], u.kids[1..]);
    BoundaryMoved(a, b, keys, nodes, r, u.keys[1], t', u', slots, n, root);
    MovedEntry(a[root].entries, keys, nodes, r, u.keys[1], t', u');
    MovedParts(nodes, r, t', u', u.kids[0].es, n);
    keys', nodes' := keys[r := u.keys[1]], Spliced(nodes, r - 1, r + 1, [t', u']);
  }

  lemma KidsDistinct(a: Store, keys: seq<nat>, kids: seq<Tree>, slots: nat, depth: nat, lo: nat, hi: nat)
    requires KidsGood(a, keys, kids, slots, depth, lo, hi)
    ensures AllDistinct(kids)
  {
  }

  /** The same for a block with a single leaf, which is left hollow: nothing leads to a leaf any
      more, but the root still has its entry. */
  ghost predicate Hollow(store: Store, root: nat, keys: seq<nat>, nodes: seq<Tree>, r: nat, node: nat, slots: nat, n: nat) {
    && KidsGood(store, keys, nodes, slots, 2, 0, LIMIT) && 1 <= r <= |nodes| == |keys| < n
    && (forall i :: 0 <= i < |nodes| ==> LeafNode(nodes[i], n))
    && root in store && store[root].Node? && |store[root].entries| == |nodes| + 1 && root !in AllFoot(nodes)
    && store[root].entries[r].sector == node && NodeHeld(Node(Dropped(store[root].entries, r)), keys, nodes)
    && node in store && store[node] == Node([]) && node != root && node !in AllFoot(nodes)
  }

  lemma HollowStep(a: Store, b: Store, root: nat, keys: seq<nat>, nodes: seq<Tree>, r: nat, m: Tree, slots: nat, n: nat)
      returns (keys': seq<nat>, nodes': seq<Tree>)
    requires Walking(a, 2, root, keys, nodes, slots, n) && 1 <= r < |nodes| && 1 == |nodes[r].kids| && nodes[r - 1].kids != []
    requires var p, s, node := nodes[r - 1].kids[|nodes[r - 1].kids| - 1], nodes[r].kids[0], nodes[r].sector;
      && m.Leaf? && m.sector == p.sector && m.es == p.es + s.es && m.sector in b && LeafHeld(b[m.sector], m.es, slots)
      && Agree(a, b, a.Keys - {m.sector, s.sector, node})
      && node in b && b[node] == Node([])
    ensures Hollow(b, root, keys', nodes', r, nodes[r].sector, slots, n) && AllFoot(nodes') == AllFoot(nodes) - {nodes[r].sector, nodes[r].kids[0].sector}
    ensures |nodes'| == |nodes| - 1 && nodes'[r - 1].sector == nodes[r - 1].sector
    ensures nodes'[r - 1].kids == nodes[r - 1].kids[|nodes[r - 1].kids| - 1 := m]
    ensures forall i :: 0 <= i < r - 1 ==> nodes'[i] == nodes[i]
    ensures Before(nodes', r, 0) == Before(nodes, r, 1) && After(nodes', r, 0) == After(nodes, r, 1)
  {
    hide Ordered, AllFoot, Foot, Distinct, AllDistinct, Held, AllHeld, Good, KidsGood, Contents, AllContents, LeafHeld, Before, After;
    var t, u, lo, hi := nodes[r - 1], nodes[r], Low(keys, r - 1, 0), High(keys, r, LIMIT);
    KidsDistinct(a, keys, nodes, slots, 2, 0, LIMIT);
    PairAtNodes(a, keys, nodes, r, slots);
    NodeGood(a, u, slots, 1, keys[r], hi);
    LeafRange(a, u, 0, slots, keys[r], hi);
    LeafInFoot(t, |t.kids| - 1);
    LeafInFoot(u, 0);
    CousinLeft(a, b, t, m, u.kids[0].es, keys[r], hi, slots, n, lo);
    var t' := Index(t.sector, t.keys, t.kids[|t.kids| - 1 := m]);
    BlocksJoined(a, b, keys, nodes, r, t', slots, n, root);
    DroppedEntry(a[root].entries, keys, nodes, r, t');
    SingleKid(a, u.kids[0], slots);
    LeafFoot(u.kids[0]);
    IndexFoot(u);
    assert u.kids == [u.kids[0]];
    JoinedParts(nodes, r, t');
    keys', nodes' := Dropped(keys, r), Spliced(nodes, r - 1, r + 1, [t']);
    HollowApart(nodes, r, t');
  }

  lemma HollowApart(nodes: seq<Tree>, r: nat, t': Tree)
    requires 1 <= r < |nodes| && AllDistinct(nodes) && nodes[r].Index? && Foot(t') <= Foot(nodes[r - 1])
    ensures nodes[r].sector !in AllFoot(Spliced(nodes, r - 1, r + 1, [t']))
  {
    hide AllDistinct, AllFoot, Foot, Distinct;
    AroundRun(nodes, r - 1, r + 1, [t']);
    AroundKid(nodes, r);
    SingleKid(map[], t', 0);
    AllSplit(nodes[..r], r - 1);
    assert nodes[..r][..r - 1] == nodes[..r - 1] && nodes[..r][r - 1..] == [nodes[r - 1]];
    SingleKid(map[], nodes[r - 1], 0);
    IndexFoot(nodes[r]);
  }

  /** The hollow block's entry leaves the root. */
  lemma HollowGone(b: Store, c: Store, root: nat, keys: seq<nat>, nodes: seq<Tree>, r: nat, node: nat, slots: nat, n: nat)
    requires Hollow(b, root, keys, nodes, r, node, slots, n)
    requires root in c && c[root] == Node(Dropped(b[root].entries, r)) && Agree(b, c, b.Keys - {root, node})
    ensures Walking(c, 2, root, keys, nodes, slots, n)
  {
    hide Ordered, AllFoot, AllDistinct, AllHeld;
    AllFootHeld(b, nodes, slots);
    AllHeldFrame(b, c, nodes, slots);
  }

  /** A finished block joined to the one before it. */
  lemma BlockStep(a: Store, b: Store, root: nat, keys: seq<nat>, nodes: seq<Tree>, r: nat, slots: nat, n: nat)
      returns (keys': seq<nat>, nodes': seq<Tree>)
    requires Walking(a, 2, root, keys, nodes, slots, n) && 1 <= r < |nodes| && |nodes[r - 1].kids| + |nodes[r].kids| <= n
    requires var p, s := nodes[r - 1].sector, nodes[r].sector;
      && p in a && a[p].Node? && s in a && a[s].Node? && root in a && a[root].Node? && r < |a[root].entries|
      && p in b && b[p] == Node(a[p].entries + a[s].entries)
      && root in b && b[root] == Node(Dropped(a[root].entries, r))
      && Agree(a, b, a.Keys - {p, s, root})
    ensures Walking(b, 2, root, keys', nodes', slots, n) && AllFoot(nodes') == AllFoot(nodes) - {nodes[r].sector}
    ensures |nodes'| == |nodes| - 1 && nodes'[r - 1].sector == nodes[r - 1].sector && nodes'[r - 1].kids == nodes[r - 1].kids + nodes[r].kids
    ensures forall i :: 0 <= i < r - 1 ==> nodes'[i] == nodes[i]
    ensures Before(nodes', r, 0) == Before(nodes, r, |nodes[r].kids|) && After(nodes', r, 0) == After(nodes, r, |nodes[r].kids|)
  {
    hide Ordered, AllFoot, Foot, Distinct, AllDistinct, Held, AllHeld, Good, KidsGood, Contents, AllContents, Before, After;
    var t, u, lo, hi := nodes[r - 1], nodes[r], Low(keys, r - 1, 0), High(keys, r, LIMIT);
    KidsDistinct(a, keys, nodes, slots, 2, 0, LIMIT);
    PairAtNodes(a, keys, nodes, r, slots);
    NodeGood(a, t, slots, 1, lo, keys[r]);
    NodeGood(a, u, slots, 1, keys[r], hi);
    var c := b[root := a[root]];
    NodesJoin(a, c, t, u, keys[r], slots, n, lo, hi);
    var t' := Index(t.sector, t.keys + u.keys, t.kids + u.kids);
    GoodFrame(c, b, t', slots, 1, lo, hi);
    BlocksJoined(a, b, keys, nodes, r, t', slots, n, root);
    DroppedEntry(a[root].entries, keys, nodes, r, t');
    JoinedParts(nodes, r, t');
    keys', nodes' := Dropped(keys, r), Spliced(nodes, r - 1, r + 1, [t']);
  }
}
