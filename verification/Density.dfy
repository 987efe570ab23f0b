/** How full the delete walk leaves a tree: no two neighbours that it has passed would fit into one. */
module Density {
  import opened Exceptions
  import opened TreeSpec

  ghost function KidsOf(t: Tree): seq<Tree> {
    if t.Index? then t.kids else []
  }

  /** The leaves of index blocks, in order. */
  ghost function AllLeaves(nodes: seq<Tree>): seq<Tree> {
    if nodes == [] then [] else AllLeaves(nodes[..|nodes| - 1]) + KidsOf(nodes[|nodes| - 1])
  }

  /** Those before leaf `j` of block `r`. */
  ghost function Walked(nodes: seq<Tree>, r: nat, j: nat): seq<Tree>
    requires r <= |nodes|
  {
    AllLeaves(nodes[..r]) + if r < |nodes| && j <= |KidsOf(nodes[r])| then KidsOf(nodes[r])[..j] else []
  }

  /** The second leaf would not fit into the first one. */
  ghost predicate Crowd(p: Tree, l: Tree, slots: nat) {
    p.Leaf? && l.Leaf? && Payload(p.es) + Payload(l.es) > 2 * slots - 4
  }

  ghost predicate LeavesCrowded(leaves: seq<Tree>, slots: nat) {
    forall i :: 0 < i < |leaves| ==> Crowd(leaves[i - 1], leaves[i], slots)
  }

  ghost predicate BlocksCrowded(nodes: seq<Tree>, r: nat, n: nat) {
    r <= |nodes| && forall i :: 0 < i < r ==> |KidsOf(nodes[i - 1])| + |KidsOf(nodes[i])| > n
  }

  ghost predicate Tight(nodes: seq<Tree>, r: nat, j: nat, slots: nat, n: nat) {
    r <= |nodes| && LeavesCrowded(Walked(nodes, r, j), slots) && BlocksCrowded(nodes, r, n)
  }

  lemma LeavesNext(nodes: seq<Tree>, r: nat)
    requires r < |nodes|
    ensures AllLeaves(nodes[..r + 1]) == AllLeaves(nodes[..r]) + KidsOf(nodes[r])
  {
    assert nodes[..r + 1][..r] == nodes[..r];
  }

  lemma TightStart(nodes: seq<Tree>, slots: nat, n: nat)
    ensures Tight(nodes, 0, 0, slots, n)
  {
    assert Walked(nodes, 0, 0) == [];
  }

  /** Nothing before leaf `j` changes. */
  lemma TightSame(nodes: seq<Tree>, nodes': seq<Tree>, r: nat, j: nat, slots: nat, n: nat)
    requires Tight(nodes, r, j, slots, n) && r < |nodes| && r < |nodes'| && nodes'[..r] == nodes[..r]
    requires j <= |KidsOf(nodes[r])| && j <= |KidsOf(nodes'[r])| && KidsOf(nodes'[r])[..j] == KidsOf(nodes[r])[..j]
    ensures Tight(nodes', r, j, slots, n)
  {
    assert forall i :: 0 <= i < r ==> nodes'[i] == nodes'[..r][i] == nodes[..r][i];
  }

  lemma CrowdedMore(leaves: seq<Tree>, l: Tree, slots: nat)
    requires LeavesCrowded(leaves, slots) && (leaves != [] ==> Crowd(leaves[|leaves| - 1], l, slots))
    ensures LeavesCrowded(leaves + [l], slots)
  {
  }

  /** The leaf before is the last one walked over. */
  lemma LastWalked(nodes: seq<Tree>, r: nat, j: nat)
    requires r < |nodes| && j <= |KidsOf(nodes[r])| && (r > 0 ==> KidsOf(nodes[r - 1]) != [])
    ensures var w := Walked(nodes, r, j);
      if j > 0 then w != [] && w[|w| - 1] == KidsOf(nodes[r])[j - 1]
      else if r > 0 then w != [] && w[|w| - 1] == KidsOf(nodes[r - 1])[|KidsOf(nodes[r - 1])| - 1] else w == []
  {
    hide KidsOf, AllLeaves;
    if r > 0 {
      LeavesNext(nodes, r - 1);
    } else {
      NoLeaves(nodes);
    }
  }

  lemma NoLeaves(nodes: seq<Tree>)
    ensures AllLeaves(nodes[..0]) == []
  {
  }

  lemma TightMore(nodes: seq<Tree>, r: nat, j: nat, slots: nat, n: nat)
    requires Tight(nodes, r, j, slots, n) && r < |nodes| && j < |KidsOf(nodes[r])| && (r > 0 ==> KidsOf(nodes[r - 1]) != [])
    requires j > 0 ==> Crowd(KidsOf(nodes[r])[j - 1], KidsOf(nodes[r])[j], slots)
    requires j == 0 && r > 0 ==> Crowd(KidsOf(nodes[r - 1])[|KidsOf(nodes[r - 1])| - 1], KidsOf(nodes[r])[j], slots)
    ensures Tight(nodes, r, j + 1, slots, n)
  {
    hide Crowd;
    LastWalked(nodes, r, j);
    var kids := KidsOf(nodes[r]);
    assert kids[..j + 1] == kids[..j] + [kids[j]];
    assert Walked(nodes, r, j + 1) == Walked(nodes, r, j) + [kids[j]];
    CrowdedMore(Walked(nodes, r, j), kids[j], slots);
  }

  /** The last leaf has grown. */
  lemma CrowdedGrown(leaves: seq<Tree>, m: Tree, more: Entries, slots: nat)
    requires LeavesCrowded(leaves, slots) && leaves != [] && leaves[|leaves| - 1].Leaf? && m.Leaf? && m.es == leaves[|leaves| - 1].es + more
    ensures LeavesCrowded(leaves[|leaves| - 1 := m], slots)
  {
    hide Payload;
    PayloadMore(leaves[|leaves| - 1].es, more);
  }

  lemma PayloadMore(es: Entries, more: Entries)
    ensures Payload(es + more) >= Payload(es)
  {
    VersionsConcat(es, more);
  }

  lemma TightJoined(nodes: seq<Tree>, nodes': seq<Tree>, r: nat, j: nat, m: Tree, more: Entries, slots: nat, n: nat)
    requires Tight(nodes, r, j, slots, n) && r < |nodes| && r < |nodes'| && (forall i :: 0 <= i < r ==> nodes'[i] == nodes[i])
    requires 1 <= j <= |KidsOf(nodes[r])| && j <= |KidsOf(nodes'[r])| && KidsOf(nodes'[r])[..j] == KidsOf(nodes[r])[..j][j - 1 := m]
    requires KidsOf(nodes[r])[j - 1].Leaf? && m.Leaf? && m.es == KidsOf(nodes[r])[j - 1].es + more
    ensures Tight(nodes', r, j, slots, n)
  {
    hide LeavesCrowded;
    assert nodes'[..r] == nodes[..r];
    var w := Walked(nodes, r, j);
    assert w[|w| - 1] == KidsOf(nodes[r])[j - 1];
    CrowdedGrown(w, m, more, slots);
    assert Walked(nodes', r, j) == w[|w| - 1 := m];
  }

  lemma TightShifted(nodes: seq<Tree>, nodes': seq<Tree>, r: nat, m: Tree, more: Entries, slots: nat, n: nat)
    requires Tight(nodes, r, 0, slots, n) && 1 <= r <= |nodes| && r <= |nodes'| && (forall i :: 0 <= i < r - 1 ==> nodes'[i] == nodes[i])
    requires var kids := KidsOf(nodes[r - 1]);
      && kids != [] && KidsOf(nodes'[r - 1]) == kids[|kids| - 1 := m]
      && kids[|kids| - 1].Leaf? && m.Leaf? && m.es == kids[|kids| - 1].es + more
    ensures Tight(nodes', r, 0, slots, n)
  {
    hide LeavesCrowded, BlocksCrowded, KidsOf, AllLeaves;
    LeavesNext(nodes, r - 1);
    LeavesNext(nodes', r - 1);
    assert nodes'[..r - 1] == nodes[..r - 1];
    var left, kids := AllLeaves(nodes[..r - 1]), KidsOf(nodes[r - 1]);
    var w := left + kids;
    EndAdded(nodes, r, w);
    EndAdded(nodes', r, left + kids[|kids| - 1 := m]);
    CrowdedGrown(w, m, more, slots);
    assert w[|w| - 1 := m] == left + kids[|kids| - 1 := m];
    BlocksMerged(nodes, nodes', r, n);
  }

  lemma TightMerged(nodes: seq<Tree>, nodes': seq<Tree>, r: nat, slots: nat, n: nat)
    requires 1 <= r < |nodes| && Tight(nodes, r, |KidsOf(nodes[r])|, slots, n) && r <= |nodes'| && (forall i :: 0 <= i < r - 1 ==> nodes'[i] == nodes[i])
    requires KidsOf(nodes'[r - 1]) == KidsOf(nodes[r - 1]) + KidsOf(nodes[r])
    ensures Tight(nodes', r, 0, slots, n)
  {
    hide LeavesCrowded, BlocksCrowded, KidsOf, AllLeaves;
    LeavesNext(nodes, r - 1);
    LeavesNext(nodes', r - 1);
    assert nodes'[..r - 1] == nodes[..r - 1];
    var left, mid, kids := AllLeaves(nodes[..r - 1]), KidsOf(nodes[r - 1]), KidsOf(nodes[r]);
    assert kids[..|kids|] == kids;
    assert Walked(nodes, r, |kids|) == (left + mid) + kids;
    EndAdded(nodes', r, left + (mid + kids));
    Regrouped(left, mid, kids);
    BlocksMerged(nodes, nodes', r, n);
  }

  lemma Regrouped(a: seq<Tree>, b: seq<Tree>, c: seq<Tree>)
    ensures (a + b) + c == a + (b + c)
  {
  }

  lemma EndAdded(nodes: seq<Tree>, r: nat, leaves: seq<Tree>)
    requires r <= |nodes| && AllLeaves(nodes[..r]) == leaves
    ensures Walked(nodes, r, 0) == leaves
  {
  }

  lemma BlocksMerged(nodes: seq<Tree>, nodes': seq<Tree>, r: nat, n: nat)
    requires BlocksCrowded(nodes, r, n) && 1 <= r <= |nodes| && r <= |nodes'| && (forall i :: 0 <= i < r - 1 ==> nodes'[i] == nodes[i])
    requires |KidsOf(nodes'[r - 1])| >= |KidsOf(nodes[r - 1])|
    ensures BlocksCrowded(nodes', r, n)
  {
  }

  lemma TightNext(nodes: seq<Tree>, r: nat, slots: nat, n: nat)
    requires r < |nodes| && Tight(nodes, r, |KidsOf(nodes[r])|, slots, n)
    requires r > 0 ==> |KidsOf(nodes[r - 1])| + |KidsOf(nodes[r])| > n
    ensures Tight(nodes, r + 1, 0, slots, n)
  {
    LeavesNext(nodes, r);
    var kids := KidsOf(nodes[r]);
    assert kids[..|kids|] == kids;
    assert Walked(nodes, r + 1, 0) == Walked(nodes, r, |kids|);
  }

  lemma TightEnd(nodes: seq<Tree>, r: nat, j: nat, slots: nat, n: nat)
    requires Tight(nodes, r, j, slots, n)
    requires (r == |nodes| && j == 0) || (|nodes| == 1 && r == 0 && j == |KidsOf(nodes[0])|)
    ensures LeavesCrowded(AllLeaves(nodes), slots) && BlocksCrowded(nodes, |nodes|, n)
  {
    if r == |nodes| {
      assert nodes[..r] == nodes;
      assert Walked(nodes, r, 0) == AllLeaves(nodes);
    } else {
      LeavesNext(nodes, 0);
      assert nodes[..1] == nodes && KidsOf(nodes[0])[..j] == KidsOf(nodes[0]);
      assert Walked(nodes, 0, j) == AllLeaves(nodes);
    }
  }
}
