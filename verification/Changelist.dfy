/** The list of chunks in which two snapshots differ, from a walk over the whole tree. */
module Changelist {
  import opened Exceptions
  import opened Sharing
  import opened Ledger
  import opened Volume
  import opened Devices
  import PackedLeaf
  import opened TreeSpec
  import opened ExceptionTree

  /** Some version is shared by one of the two snapshots and not by the other. */
  predicate Differs(list: seq<Exception>, a: nat, b: nat) {
    exists k :: 0 <= k < |list| && (a in list[k].share) != (b in list[k].share)
  }

  /** The chunks to be listed, in order. A chunk takes `per` sectors, and the snapshot has `sectors`. */
  function Changes(es: Entries, a: nat, b: nat, per: nat, sectors: nat): seq<nat> {
    if es == [] then []
    else (if Differs(es[0].list, a, b) && es[0].chunk * per < sectors then [es[0].chunk] else []) + Changes(es[1..], a, b, per, sectors)
  }

  lemma {:induction false} ChangesConcat(x: Entries, y: Entries, a: nat, b: nat, per: nat, sectors: nat)
    ensures Changes(x + y, a, b, per, sectors) == Changes(x, a, b, per, sectors) + Changes(y, a, b, per, sectors)
  {
    hide Differs, Changes;
    if x == [] {
      assert x + y == y;
      NoChanges(x, a, b, per, sectors);
      assert x[..0] == x;
    } else {
      assert (x + y)[1..] == x[1..] + y && (x + y)[0] == x[0];
      ChangesConcat(x[1..], y, a, b, per, sectors);
      ChangesFirst(x, a, b, per, sectors);
      ChangesFirst(x + y, a, b, per, sectors);
    }
  }

  lemma ChangesFirst(es: Entries, a: nat, b: nat, per: nat, sectors: nat)
    requires es != []
    ensures Changes(es, a, b, per, sectors)
         == (if Differs(es[0].list, a, b) && es[0].chunk * per < sectors then [es[0].chunk] else []) + Changes(es[1..], a, b, per, sectors)
  {
  }

  // What the list says

  /** Two snapshots that share all the same versions find a chunk in the same place, and otherwise
      not. */
  lemma DiffersMeans(list: seq<Exception>, a: nat, b: nat, mask: Mask)
    requires Proper(list, mask) && Unrepeated(list)
    ensures Differs(list, a, b) <==> Resolve(list, a) != Resolve(list, b)
  {
    hide Resolve;
    var j := FirstShared(list, a);
    var k := FirstShared(list, b);
    if j < |list| {
      assert Alone(list, j, a);
    }
    if k < |list| {
      assert Alone(list, k, b);
    }
    if j != k {
      if j < |list| {
        assert (a in list[j].share) != (b in list[j].share);
      } else {
        assert (a in list[k].share) != (b in list[k].share);
      }
    }
  }

  ghost predicate Alone(list: seq<Exception>, j: nat, a: nat) {
    forall i :: 0 <= i < |list| && a in list[i].share ==> i == j
  }

  lemma {:induction false} ChangesFrom(es: Entries, a: nat, b: nat, per: nat, sectors: nat, c: nat)
    requires Sorted(es)
    ensures c in Changes(es, a, b, per, sectors) <==>
      exists i :: 0 <= i < |es| && es[i].chunk == c && Differs(es[i].list, a, b) && c * per < sectors
  {
    hide Differs;
    if es != [] {
      assert forall i :: 0 <= i < |es[1..]| ==> es[1..][i] == es[i + 1];
      ChangesFrom(es[1..], a, b, per, sectors, c);
    }
  }

  ghost predicate Ascending(r: seq<nat>) {
    forall i, j :: 0 <= i < j < |r| ==> r[i] < r[j]
  }

  lemma {:induction false} ChangesAscend(es: Entries, a: nat, b: nat, per: nat, sectors: nat)
    requires Sorted(es)
    ensures Ascending(Changes(es, a, b, per, sectors))
  {
    hide Differs, Changes;
    if es == [] {
      NoChanges(es, a, b, per, sectors);
      assert es[..0] == es;
    } else {
      assert forall i :: 0 <= i < |es[1..]| ==> es[1..][i] == es[i + 1];
      var rest := Changes(es[1..], a, b, per, sectors);
      ChangesAscend(es[1..], a, b, per, sectors);
      ChangesFirst(es, a, b, per, sectors);
      forall i | 0 <= i < |rest|
        ensures es[0].chunk < rest[i]
      {
        ChangesFrom(es[1..], a, b, per, sectors, rest[i]);
      }
      AscendCons(es[0].chunk, rest);
    }
  }

  lemma AscendCons(c: nat, rest: seq<nat>)
    requires Ascending(rest) && forall i :: 0 <= i < |rest| ==> c < rest[i]
    ensures Ascending([c] + rest) && [] + rest == rest
  {
  }

  /** A chunk within the snapshot is listed, once and in ascending order, just if the two snapshots
      find it in different places; chunks not listed read the same. */
  lemma ListExact(es: Entries, a: nat, b: nat, per: nat, sectors: nat, mask: Mask, c: nat)
    requires Sorted(es) && Books(es, mask)
    ensures c in Changes(es, a, b, per, sectors) <==> c * per < sectors && Resolve(Lookup(es, c), a) != Resolve(Lookup(es, c), b)
    ensures Ascending(Changes(es, a, b, per, sectors))
    ensures c * per < sectors && c !in Changes(es, a, b, per, sectors) ==>
      forall data: Disk, origin: Disk :: Seen(es, data, origin, a, c) == Seen(es, data, origin, b, c)
  {
    hide Differs, Changes, Resolve, Lookup, Addresses;
    ChangesFrom(es, a, b, per, sectors, c);
    ChangesAscend(es, a, b, per, sectors);
    assert Proper(Lookup(es, c), mask) && Unrepeated(Lookup(es, c));
    DiffersMeans(Lookup(es, c), a, b, mask);
    if i :| 0 <= i < |es| && es[i].chunk == c {
      LookupAt(es, i);
      assert forall k :: 0 <= k < |es| && es[k].chunk == c ==> k == i;
    } else {
      LookupAbsent(es, c);
      NoVersions(a);
      NoVersions(b);
    }
  }

  lemma NoVersions(a: nat)
    ensures Resolve([], a) == OnOrigin
  {
  }

  // The walk

  ghost predicate Deep(t: Tree, depth: nat)
    decreases t
  {
    if t.Leaf? then depth == 0
    else depth > 0 && t.kids != [] && forall i :: 0 <= i < |t.kids| ==> Deep(t.kids[i], depth - 1)
  }

  lemma {:induction false} OrderedDeep(t: Tree, depth: nat, lo: nat, hi: nat)
    requires Ordered(t, depth, lo, hi)
    ensures Deep(t, depth)
    decreases t
  {
    if t.Index? {
      hide Ordered;
      OrderedIndex(t, depth, lo, hi);
      forall i | 0 <= i < |t.kids|
        ensures Deep(t.kids[i], depth - 1)
      {
        KidOrdered(t, i, depth, lo, hi);
        OrderedDeep(t.kids[i], depth - 1, Low(t.keys, i, lo), High(t.keys, i, hi));
      }
    }
  }

  lemma OrderedIndex(t: Tree, depth: nat, lo: nat, hi: nat)
    requires t.Index? && Ordered(t, depth, lo, hi)
    ensures depth > 0 && t.kids != []
  {
  }

  /** How many blocks there are. */
  ghost function Nodes(t: Tree): nat
    decreases t
  {
    1 + if t.Index? then AllNodes(t.kids) else 0
  }

  ghost function AllNodes(kids: seq<Tree>): nat
    decreases kids
  {
    if kids == [] then 0 else Nodes(kids[0]) + AllNodes(kids[1..])
  }

  lemma NextKid(kids: seq<Tree>, i: nat)
    requires i < |kids|
    ensures AllContents(kids[i..]) == Contents(kids[i]) + AllContents(kids[i + 1..])
    ensures AllNodes(kids[i..]) == Nodes(kids[i]) + AllNodes(kids[i + 1..])
  {
    assert kids[i..][0] == kids[i] && kids[i..][1..] == kids[i + 1..];
  }

  /** One level of the stack: the block, and how many of its entries have been followed. */
  ghost predicate OnLevel(store: Store, step: Step, t: Tree, depth: nat, slots: nat) {
    t.Index? && Held(store, t, slots) && Deep(t, depth) && step.sector == t.sector && step.next <= |t.kids|
  }

  ghost predicate Stacked(store: Store, path: seq<Step>, trees: seq<Tree>, levels: nat, slots: nat) {
    && 1 <= |path| == |trees| <= levels
    && (forall l :: 0 <= l < |path| ==> OnLevel(store, path[l], trees[l], levels - l, slots))
  }

  /** What the stack has still to visit. */
  ghost function Rest(path: seq<Step>, trees: seq<Tree>): Entries
    requires |path| == |trees|
  {
    if path == [] then []
    else
      var l := |path| - 1;
      (if trees[l].Index? && path[l].next <= |trees[l].kids| then AllContents(trees[l].kids[path[l].next..]) else []) + Rest(path[..l], trees[..l])
  }

  ghost function Size(path: seq<Step>, trees: seq<Tree>): nat
    requires |path| == |trees|
  {
    if path == [] then 0
    else
      var l := |path| - 1;
      (if trees[l].Index? && path[l].next <= |trees[l].kids| then AllNodes(trees[l].kids[path[l].next..]) else 0) + Size(path[..l], trees[..l])
  }

  lemma LevelFacts(store: Store, step: Step, t: Tree, depth: nat, slots: nat)
    requires OnLevel(store, step, t, depth, slots)
    ensures t.Index? && t.kids != [] && step.sector in store && store[step.sector].Node? && |store[step.sector].entries| == |t.kids|
  {
  }

  /** Following one more entry. */
  lemma Follow(store: Store, step: Step, t: Tree, depth: nat, slots: nat)
    requires OnLevel(store, step, t, depth, slots) && step.next < |t.kids|
    ensures OnLevel(store, step.(next := step.next + 1), t, depth, slots) && store[step.sector].entries[step.next].sector == t.kids[step.next].sector
    ensures depth > 0 && Held(store, t.kids[step.next], slots) && Deep(t.kids[step.next], depth - 1)
  {
    AllHeldSplit(store, t.kids, step.next, slots);
    assert t.kids[step.next..][0] == t.kids[step.next];
  }

  lemma RestStep(path: seq<Step>, trees: seq<Tree>)
    requires 1 <= |path| == |trees|
    requires var l := |path| - 1; trees[l].Index? && path[l].next < |trees[l].kids|
    ensures var l := |path| - 1;
      var kid, path' := trees[l].kids[path[l].next], path[l := path[l].(next := path[l].next + 1)];
      Rest(path, trees) == Contents(kid) + Rest(path', trees) && Size(path, trees) == Nodes(kid) + Size(path', trees)
  {
    hide Contents, AllContents, Nodes, AllNodes;
    var l := |path| - 1;
    var path' := path[l := path[l].(next := path[l].next + 1)];
    NextKid(trees[l].kids, path[l].next);
    assert path'[..l] == path[..l];
  }

  lemma RestPush(path: seq<Step>, trees: seq<Tree>, s: Step, t: Tree)
    requires |path| == |trees| && t.Index? && s.next == 0
    ensures Rest(path + [s], trees + [t]) == Contents(t) + Rest(path, trees) && Size(path + [s], trees + [t]) == Nodes(t) - 1 + Size(path, trees)
  {
    var p, q := path + [s], trees + [t];
    assert p[..|p| - 1] == path && q[..|q| - 1] == trees && t.kids[0..] == t.kids;
  }

  lemma RestPop(path: seq<Step>, trees: seq<Tree>)
    requires 1 <= |path| == |trees|
    requires var l := |path| - 1; trees[l].Index? && path[l].next == |trees[l].kids|
    ensures Rest(path, trees) == Rest(path[..|path| - 1], trees[..|path| - 1]) && Size(path, trees) == Size(path[..|path| - 1], trees[..|path| - 1])
  {
    var l := |path| - 1;
    assert trees[l].kids[path[l].next..] == [];
  }

  class Traversal {
    const bt: Btree
    const a: nat
    const b: nat
    const per: nat
    const sectors: nat
    var path: seq<Step>
    var list: seq<nat>
    ghost var trees: seq<Tree>
    ghost var seen: Entries

    /** What has been listed is what the leaves visited so far say. */
    ghost predicate Valid()
      reads this, bt
    {
      && Stacked(bt.store, path, trees, bt.levels, bt.slots)
      && seen + Rest(path, trees) == Contents(bt.tree) && list == Changes(seen, a, b, per, sectors)
    }

    constructor (bt: Btree, a: nat, b: nat, per: nat, sectors: nat)
      requires bt.Valid()
      ensures Valid() && this.bt == bt && this.a == a && this.b == b && this.per == per && this.sectors == sectors
      ensures |path| == 1 && Unfinished()
    {
      hide Changes, Contents, Rest, Size, OnLevel, Deep, Held, Ordered, Fits;
      this.bt, this.a, this.b, this.per, this.sectors := bt, a, b, per, sectors;
      path, list := [Step(bt.root, 0)], [];
      trees, seen := [bt.tree], [];
      new;
      OrderedDeep(bt.tree, bt.levels, 0, LIMIT);
      KidIndex(bt.store, bt.tree, bt.levels, bt.slots);
      RestPush([], [], Step(bt.root, 0), bt.tree);
      assert [] + [Step(bt.root, 0)] == path && [] + [bt.tree] == trees;
      NoRest();
      NoChanges([], a, b, per, sectors);
    }

    ghost predicate Unfinished()
      reads this
    {
      |path| == |trees| > 0 && trees[|path| - 1].Index? && path[|path| - 1].next < |trees[|path| - 1].kids|
    }

    ghost predicate Used()
      reads this
    {
      |path| == |trees| > 0 && trees[|path| - 1].Index? && path[|path| - 1].next == |trees[|path| - 1].kids|
    }

    /** Goes down to a block over leaves. */
    method Descend()
      requires Valid() && Unfinished()
      modifies this`path, this`trees
      ensures Valid() && Unfinished() && |path| == bt.levels && Size(path, trees) <= old(Size(path, trees))
    {
      hide Changes, Contents, Rest, Size, OnLevel;
      while |path| < bt.levels
        invariant Valid() && Unfinished() && Size(path, trees) <= old(Size(path, trees))
        decreases bt.levels - |path|
      {
        var l := |path| - 1;
        ghost var t := trees[l];
        LevelFacts(bt.store, path[l], t, bt.levels - l, bt.slots);
        Follow(bt.store, path[l], t, bt.levels - l, bt.slots);
        ghost var kid := t.kids[path[l].next];
        KidIndex(bt.store, kid, bt.levels - l - 1, bt.slots);
        RestStep(path, trees);
        var s := Step(bt.store[path[l].sector].entries[path[l].next].sector, 0);
        path := path[l := path[l].(next := path[l].next + 1)];
        RestPush(path, trees, s, kid);
        path := path + [s];
        trees := trees + [kid];
      }
    }

    /** Visits the leaves of the block at the bottom of the stack. */
    method VisitLeaves()
      requires Valid() && Unfinished() && |path| == bt.levels
      modifies this`path, this`list, this`seen
      ensures Valid() && |path| == bt.levels && Used() && Size(path, trees) < old(Size(path, trees))
    {
      hide Changes, Contents, Rest, Size, OnLevel;
      var l := |path| - 1;
      ghost var t := trees[l];
      LevelFacts(bt.store, path[l], t, 1, bt.slots);
      var entries := bt.store[path[l].sector].entries;
      while path[l].next < |entries|
        invariant Valid() && |path| == bt.levels && path[l].next <= |entries| == |t.kids|
        invariant path[l].sector == old(path[l].sector)
        invariant Size(path, trees) <= old(Size(path, trees)) && (path[l].next > old(path[l].next) ==> Size(path, trees) < old(Size(path, trees)))
        invariant path[l].next >= old(path[l].next)
        decreases |entries| - path[l].next
      {
        Follow(bt.store, path[l], t, 1, bt.slots);
        RestStep(path, trees);
        ghost var kid := t.kids[path[l].next];
        KidLeaf(bt.store, kid, bt.slots);
        var more := VisitLeaf(bt.store[entries[path[l].next].sector].image, kid.es);
        Joined(seen, kid.es, Rest(path[l := path[l].(next := path[l].next + 1)], trees));
        ChangesConcat(seen, kid.es, a, b, per, sectors);
        path := path[l := path[l].(next := path[l].next + 1)];
        list, seen := list + more, seen + kid.es;
      }
    }

    /** Lists the chunks of one leaf in which the snapshots differ. */
    method VisitLeaf(image: PackedLeaf.Image, ghost es: Entries) returns (more: seq<nat>)
      requires LeafHeld(LeafBlock(image), es, bt.slots)
      ensures more == Changes(es, a, b, per, sectors)
    {
      hide PackedLeaf.Image.Entries, Changes, Differs;
      more := [];
      NoChanges(es, a, b, per, sectors);
      for i := 0 to image.count
        invariant more == Changes(es[..i], a, b, per, sectors)
      {
        var listed := EntryChanged(image, i, es);
        ChangesNext(es, i, a, b, per, sectors);
        PackedLeaf.EntryAt(image, i);
        if listed {
          more := more + [image.dir[i].rchunk];
        }
      }
      assert es[..|es|] == es;
    }

    /** Whether a chunk is to be listed: looks through its versions for one that only one of the
        snapshots shares. */
    method EntryChanged(image: PackedLeaf.Image, i: nat, ghost es: Entries) returns (listed: bool)
      requires LeafHeld(LeafBlock(image), es, bt.slots) && i < image.count
      ensures listed <==> Differs(es[i].list, a, b) && es[i].chunk * per < sectors
    {
      hide PackedLeaf.Image.Entries;
      PackedLeaf.EntryAt(image, i);
      var lo, hi := image.dir[i].offset, image.dir[i + 1].offset;
      ghost var versions := es[i].list;
      var p := lo;
      while p < hi
        invariant lo <= p <= hi
        invariant es[i].chunk * per < sectors ==> forall k :: 0 <= k < p - lo ==> (a in versions[k].share) == (b in versions[k].share)
      {
        assert image.exc[p] == versions[p - lo];
        if (a in image.exc[p].share) != (b in image.exc[p].share) && image.dir[i].rchunk * per < sectors {
          return true;
        }
        p := p + 1;
      }
      return false;
    }

    /** Leaves finished blocks; says whether the root is finished too. */
    method Climb() returns (done: bool)
      requires Valid() && Used()
      modifies this`path, this`trees
      ensures Valid() && Size(path, trees) == old(Size(path, trees))
      ensures if done then Rest(path, trees) == [] else Unfinished() && |path| < bt.levels
    {
      hide Changes, Contents, OnLevel, Rest, Size;
      while true
        invariant Valid() && Size(path, trees) == old(Size(path, trees)) && Used()
        decreases |path|
      {
        LevelFacts(bt.store, path[|path| - 1], trees[|path| - 1], bt.levels - (|path| - 1), bt.slots);
        RestPop(path, trees);
        if |path| == 1 {
          NoRest();
          assert path[..0] == [] && trees[..0] == [];
          return true;
        }
        path := path[..|path| - 1];
        trees := trees[..|path|];
        var l := |path| - 1;
        LevelFacts(bt.store, path[l], trees[l], bt.levels - l, bt.slots);
        LevelNext(bt.store, path[l], trees[l], bt.levels - l, bt.slots);
        if path[l].next < |bt.store[path[l].sector].entries| {
          return false;
        }
      }
    }
  }

  lemma NoRest()
    ensures Rest([], []) == []
  {
  }

  lemma LevelNext(store: Store, step: Step, t: Tree, depth: nat, slots: nat)
    requires OnLevel(store, step, t, depth, slots)
    ensures t.Index? && step.next <= |t.kids|
  {
  }

  lemma KidIndex(store: Store, t: Tree, depth: nat, slots: nat)
    requires Held(store, t, slots) && Deep(t, depth) && depth > 0
    ensures t.Index? && OnLevel(store, Step(t.sector, 0), t, depth, slots) && t.kids != []
  {
  }

  lemma KidLeaf(store: Store, t: Tree, slots: nat)
    requires Held(store, t, slots) && Deep(t, 0)
    ensures t.Leaf? && t.sector in store && store[t.sector].LeafBlock? && LeafHeld(store[t.sector], t.es, slots) && Contents(t) == t.es && Nodes(t) == 1
  {
  }

  lemma Joined(x: Entries, y: Entries, z: Entries)
    ensures x + (y + z) == x + y + z
  {
  }

  lemma NoChanges(es: Entries, a: nat, b: nat, per: nat, sectors: nat)
    ensures Changes(es[..0], a, b, per, sectors) == []
  {
  }

  lemma ChangesNext(es: Entries, i: nat, a: nat, b: nat, per: nat, sectors: nat)
    requires i < |es|
    ensures Changes(es[..i + 1], a, b, per, sectors)
         == Changes(es[..i], a, b, per, sectors) + if Differs(es[i].list, a, b) && es[i].chunk * per < sectors then [es[i].chunk] else []
  {
    hide Differs;
    assert es[..i + 1] == es[..i] + [es[i]];
    ChangesConcat(es[..i], [es[i]], a, b, per, sectors);
    var one := [es[i]];
    assert one[1..] == [];
  }

  /** The list of chunks in which two snapshots differ, from an in-order walk that visits every leaf
      once, at any depth. */
  method ChangedChunks(bt: Btree, a: nat, b: nat, per: nat, sectors: nat) returns (list: seq<nat>)
    requires bt.Valid()
    ensures list == Changes(Contents(bt.tree), a, b, per, sectors)
  {
    hide Changes, Contents, Rest, Size, OnLevel, Good, Fits;
    var t := new Traversal(bt, a, b, per, sectors);
    var done := false;
    while !done
      invariant t.Valid() && t.bt == bt && t.a == a && t.b == b && t.per == per && t.sectors == sectors && fresh(t)
      invariant if done then Rest(t.path, t.trees) == [] else t.Unfinished()
      decreases !done, Size(t.path, t.trees)
    {
      t.Descend();
      t.VisitLeaves();
      done := t.Climb();
    }
    assert t.seen + [] == t.seen;
    list := t.list;
  }
}
