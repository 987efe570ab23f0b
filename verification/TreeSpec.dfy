/** The exception tree: index blocks over leaf blocks, addressed by sector. A ghost tree says which
    blocks make it up; its in-order contents are what the tree records. */
module TreeSpec {
  import opened Exceptions
  import opened PackedLeaf

  /** Chunk addresses fit 32 bits. */
  const LIMIT := 0x1_0000_0000

  datatype IndexEntry = IndexEntry(key: nat, sector: nat)

  datatype Block = Node(entries: seq<IndexEntry>) | LeafBlock(image: Image)

  type Store = map<nat, Block>

  /** The first key of an index block is not consulted. */
  datatype Tree = Leaf(sector: nat, es: Entries) | Index(sector: nat, keys: seq<nat>, kids: seq<Tree>)

  /** Everything recorded, in order. */
  ghost function Contents(t: Tree): Entries
    decreases t
  {
    match t
    case Leaf(_, es) => es
    case Index(_, _, kids) => AllContents(kids)
  }

  ghost function AllContents(kids: seq<Tree>): Entries
    decreases kids
  {
    if kids == [] then [] else Contents(kids[0]) + AllContents(kids[1..])
  }

  /** The sectors of the tree's blocks. */
  ghost function Foot(t: Tree): set<nat>
    decreases t
  {
    match t
    case Leaf(s, _) => {s}
    case Index(s, _, kids) => {s} + AllFoot(kids)
  }

  ghost function AllFoot(kids: seq<Tree>): set<nat>
    decreases kids
  {
    if kids == [] then {} else Foot(kids[0]) + AllFoot(kids[1..])
  }

  /** The range of chunks that child `i` covers within `lo` to `hi`. */
  function Low(keys: seq<nat>, i: nat, lo: nat): nat
    requires i < |keys|
  {
    if i == 0 then lo else keys[i]
  }

  function High(keys: seq<nat>, i: nat, hi: nat): nat
    requires i < |keys|
  {
    if i + 1 == |keys| then hi else keys[i + 1]
  }

  /** Every leaf is `depth` levels down, sorted, and within the range its separators give it; the
      separators ascend strictly, and an index block that is not a first child starts with the
      separator before it. */
  ghost predicate Ordered(t: Tree, depth: nat, lo: nat, hi: nat)
    decreases t
  {
    lo < hi &&
    match t
    case Leaf(_, es) =>
      depth == 0 && Sorted(es) && forall i :: 0 <= i < |es| ==> lo <= es[i].chunk < hi
    case Index(_, keys, kids) =>
      && depth > 0 && 1 <= |kids| == |keys|
      && (forall i :: 0 <= i < |kids| ==> Ordered(kids[i], depth - 1, Low(keys, i, lo), High(keys, i, hi)))
      && (forall i :: 1 <= i < |kids| && kids[i].Index? ==> FirstKey(kids[i]) == keys[i])
  }

  /** The key that becomes a separator if the block is ever merged into the one before it. */
  ghost function FirstKey(t: Tree): nat {
    if t.Index? && t.keys != [] then t.keys[0] else 0
  }

  /** No index block holds more than `n` entries. */
  ghost predicate Fits(t: Tree, n: nat)
    decreases t
  {
    t.Index? ==> |t.kids| <= n && forall i :: 0 <= i < |t.kids| ==> Fits(t.kids[i], n)
  }

  /** No block serves twice. */
  ghost predicate Distinct(t: Tree)
    decreases t
  {
    t.Index? ==> AllDistinct(t.kids) && t.sector !in AllFoot(t.kids)
  }

  ghost predicate AllDistinct(kids: seq<Tree>)
    decreases kids
  {
    kids != [] ==> Distinct(kids[0]) && AllDistinct(kids[1..]) && Foot(kids[0]) !! AllFoot(kids[1..])
  }

  /** The blocks of `store` hold the tree. */
  ghost predicate Held(store: Store, t: Tree, slots: nat)
    decreases t
  {
    t.sector in store &&
    match t
    case Leaf(s, es) => LeafHeld(store[s], es, slots)
    case Index(s, keys, kids) => NodeHeld(store[s], keys, kids) && AllHeld(store, kids, slots)
  }

  ghost predicate AllHeld(store: Store, kids: seq<Tree>, slots: nat)
    decreases kids
  {
    kids != [] ==> Held(store, kids[0], slots) && AllHeld(store, kids[1..], slots)
  }

  ghost predicate LeafHeld(b: Block, es: Entries, slots: nat) {
    && b.LeafBlock? && b.image.Valid() && b.image.Entries() == es
    && |b.image.exc| == slots && 3 + |b.image.dir| == 2 * slots
  }

  ghost predicate NodeHeld(b: Block, keys: seq<nat>, kids: seq<Tree>) {
    && b.Node? && |b.entries| == |keys| == |kids|
    && forall i :: 0 <= i < |keys| ==> b.entries[i] == IndexEntry(keys[i], kids[i].sector)
  }

  ghost predicate Good(store: Store, t: Tree, slots: nat, depth: nat, lo: nat, hi: nat) {
    Held(store, t, slots) && Distinct(t) && Ordered(t, depth, lo, hi)
  }

  /** Two stores agree on a set of sectors. */
  ghost predicate Agree(a: Store, b: Store, on: set<nat>) {
    forall s :: s in on && s in a ==> s in b && b[s] == a[s]
  }

  // Sequences of children

  lemma {:induction false} AllSplit(kids: seq<Tree>, i: nat)
    requires i <= |kids|
    ensures AllContents(kids) == AllContents(kids[..i]) + AllContents(kids[i..])
    ensures AllFoot(kids) == AllFoot(kids[..i]) + AllFoot(kids[i..])
    ensures AllDistinct(kids) <==>
      AllDistinct(kids[..i]) && AllDistinct(kids[i..]) && AllFoot(kids[..i]) !! AllFoot(kids[i..])
  {
    if i == 0 {
      assert kids[..0] == [] && kids[0..] == kids;
    } else {
      AllSplit(kids[1..], i - 1);
      assert kids[..i][1..] == kids[1..][..i - 1] && kids[1..][i - 1..] == kids[i..] && kids[..i][0] == kids[0];
    }
  }

  lemma {:induction false} AllHeldSplit(store: Store, kids: seq<Tree>, i: nat, slots: nat)
    requires i <= |kids|
    ensures AllHeld(store, kids, slots) <==> AllHeld(store, kids[..i], slots) && AllHeld(store, kids[i..], slots)
  {
    if i == 0 {
      assert kids[..0] == [] && kids[0..] == kids;
    } else {
      AllHeldSplit(store, kids[1..], i - 1, slots);
      assert kids[..i][1..] == kids[1..][..i - 1] && kids[1..][i - 1..] == kids[i..] && kids[..i][0] == kids[0];
    }
  }

  /** A tree is held as long as its own blocks do not change. */
  lemma {:induction false} HeldFrame(a: Store, b: Store, t: Tree, slots: nat)
    requires Held(a, t, slots) && Agree(a, b, Foot(t))
    ensures Held(b, t, slots)
    decreases t
  {
    if t.Index? {
      AllHeldFrame(a, b, t.kids, slots);
    }
  }

  lemma {:induction false} AllHeldFrame(a: Store, b: Store, kids: seq<Tree>, slots: nat)
    requires AllHeld(a, kids, slots) && Agree(a, b, AllFoot(kids))
    ensures AllHeld(b, kids, slots)
    decreases kids
  {
    if kids != [] {
      HeldFrame(a, b, kids[0], slots);
      AllHeldFrame(a, b, kids[1..], slots);
    }
  }

  lemma {:induction false} FootHeld(store: Store, t: Tree, slots: nat)
    requires Held(store, t, slots)
    ensures Foot(t) <= store.Keys
    decreases t
  {
    if t.Index? {
      AllFootHeld(store, t.kids, slots);
    }
  }

  lemma {:induction false} AllFootHeld(store: Store, kids: seq<Tree>, slots: nat)
    requires AllHeld(store, kids, slots)
    ensures AllFoot(kids) <= store.Keys
    decreases kids
  {
    if kids != [] {
      FootHeld(store, kids[0], slots);
      AllFootHeld(store, kids[1..], slots);
    }
  }

  lemma NoContents()
    ensures AllContents([]) == []
  {
  }

  // Replacing one child by others

  ghost function Replaced(kids: seq<Tree>, i: nat, mid: seq<Tree>): seq<Tree>
    requires i < |kids|
  {
    kids[..i] + mid + kids[i + 1..]
  }

  lemma AroundKid(kids: seq<Tree>, i: nat)
    requires i < |kids|
    ensures AllContents(kids) == AllContents(kids[..i]) + Contents(kids[i]) + AllContents(kids[i + 1..])
    ensures AllFoot(kids) == AllFoot(kids[..i]) + Foot(kids[i]) + AllFoot(kids[i + 1..])
    ensures AllDistinct(kids) <==>
      && AllDistinct(kids[..i]) && Distinct(kids[i]) && AllDistinct(kids[i + 1..])
      && AllFoot(kids[..i]) !! Foot(kids[i]) && (AllFoot(kids[..i]) + Foot(kids[i])) !! AllFoot(kids[i + 1..])
  {
    AllSplit(kids, i);
    assert kids[i..][1..] == kids[i + 1..] && kids[i..][0] == kids[i];
    assert AllContents(kids[..i]) + (Contents(kids[i]) + AllContents(kids[i + 1..]))
        == AllContents(kids[..i]) + Contents(kids[i]) + AllContents(kids[i + 1..]);
  }

  lemma AroundMid(kids: seq<Tree>, i: nat, mid: seq<Tree>)
    requires i < |kids|
    ensures var r := Replaced(kids, i, mid);
      && AllContents(r) == AllContents(kids[..i]) + AllContents(mid) + AllContents(kids[i + 1..])
      && AllFoot(r) == AllFoot(kids[..i]) + AllFoot(mid) + AllFoot(kids[i + 1..])
      && (AllDistinct(r) <==>
            && AllDistinct(kids[..i]) && AllDistinct(mid) && AllDistinct(kids[i + 1..])
            && AllFoot(kids[..i]) !! AllFoot(mid) && (AllFoot(kids[..i]) + AllFoot(mid)) !! AllFoot(kids[i + 1..]))
  {
    var r, pre, post := Replaced(kids, i, mid), kids[..i], kids[i + 1..];
    AllSplit(r, i);
    assert r[..i] == pre && r[i..] == mid + post;
    AllSplit(mid + post, |mid|);
    assert (mid + post)[..|mid|] == mid && (mid + post)[|mid|..] == post;
    assert AllContents(pre) + (AllContents(mid) + AllContents(post)) == AllContents(pre) + AllContents(mid) + AllContents(post);
  }

  /** The new children may use the old one's blocks and fresh ones. */
  lemma ReplacedDistinct(kids: seq<Tree>, i: nat, mid: seq<Tree>, fresh_: set<nat>)
    requires i < |kids| && AllDistinct(kids) && AllDistinct(mid)
    requires AllFoot(mid) == Foot(kids[i]) + fresh_ && fresh_ !! AllFoot(kids)
    ensures AllDistinct(Replaced(kids, i, mid)) && AllFoot(Replaced(kids, i, mid)) == AllFoot(kids) + fresh_
  {
    hide AllDistinct, AllFoot, Foot, Distinct;
    AroundKid(kids, i);
    AroundMid(kids, i, mid);
  }

  lemma ReplacedHeld(a: Store, b: Store, kids: seq<Tree>, i: nat, mid: seq<Tree>, slots: nat)
    requires i < |kids| && AllDistinct(kids) && AllHeld(a, kids, slots) && AllHeld(b, mid, slots)
    requires Agree(a, b, AllFoot(kids) - Foot(kids[i]))
    ensures AllHeld(b, Replaced(kids, i, mid), slots)
  {
    hide AllDistinct, AllFoot, Foot, Distinct, Held, AllHeld;
    var r, pre, post := Replaced(kids, i, mid), kids[..i], kids[i + 1..];
    AroundKid(kids, i);
    AllHeldSplit(a, kids, i, slots);
    AllHeldSplit(a, kids, i + 1, slots);
    AllHeldFrame(a, b, pre, slots);
    AllHeldFrame(a, b, post, slots);
    AllHeldSplit(b, r, i, slots);
    assert r[..i] == pre && r[i..] == mid + post;
    AllHeldSplit(b, mid + post, |mid|, slots);
    assert (mid + post)[..|mid|] == mid && (mid + post)[|mid|..] == post;
  }

  // Order

  ghost predicate Within(es: Entries, lo: nat, hi: nat) {
    forall i :: 0 <= i < |es| ==> lo <= es[i].chunk < hi
  }

  lemma SortedConcat(a: Entries, b: Entries, lo: nat, mid: nat, hi: nat)
    requires Sorted(a) && Sorted(b) && Within(a, lo, mid) && Within(b, mid, hi) && lo <= mid <= hi
    ensures Sorted(a + b) && Within(a + b, lo, hi)
  {
  }

  lemma {:induction false} ContentsOrdered(t: Tree, depth: nat, lo: nat, hi: nat)
    requires Ordered(t, depth, lo, hi)
    ensures Sorted(Contents(t)) && Within(Contents(t), lo, hi)
    decreases t, if t.Index? then |t.kids| + 1 else 0
  {
    if t.Index? {
      TailOrdered(t, 0, depth, lo, hi);
      assert t.kids[0..] == t.kids;
    }
  }

  lemma {:induction false} TailOrdered(t: Tree, i: nat, depth: nat, lo: nat, hi: nat)
    requires t.Index? && i < |t.kids| && Ordered(t, depth, lo, hi)
    ensures Low(t.keys, i, lo) < hi
    ensures Sorted(AllContents(t.kids[i..])) && Within(AllContents(t.kids[i..]), Low(t.keys, i, lo), hi)
    decreases t, |t.kids| - i
  {
    hide Ordered;
    KidOrdered(t, i, depth, lo, hi);
    var low, high := Low(t.keys, i, lo), High(t.keys, i, hi);
    ContentsOrdered(t.kids[i], depth - 1, low, high);
    var rest := t.kids[i..];
    assert rest[0] == t.kids[i] && rest[1..] == t.kids[i + 1..];
    if i + 1 < |t.kids| {
      TailOrdered(t, i + 1, depth, lo, hi);
      assert high == Low(t.keys, i + 1, lo);
      SortedConcat(Contents(t.kids[i]), AllContents(t.kids[i + 1..]), low, high, hi);
    } else {
      assert Contents(t.kids[i]) + [] == Contents(t.kids[i]);
    }
  }

  /** What order means for one child, and what makes a block ordered. */
  lemma KidOrdered(t: Tree, i: nat, depth: nat, lo: nat, hi: nat)
    requires t.Index? && Ordered(t, depth, lo, hi) && i < |t.kids|
    ensures depth > 0 && lo < hi && |t.kids| == |t.keys|
    ensures Ordered(t.kids[i], depth - 1, Low(t.keys, i, lo), High(t.keys, i, hi))
    ensures Low(t.keys, i, lo) < High(t.keys, i, hi)
    ensures i >= 1 && t.kids[i].Index? ==> FirstKey(t.kids[i]) == t.keys[i]
  {
  }

  lemma MakeOrdered(t: Tree, depth: nat, lo: nat, hi: nat)
    requires t.Index? && depth > 0 && lo < hi && 1 <= |t.kids| == |t.keys|
    requires forall i :: 0 <= i < |t.kids| ==> Ordered(t.kids[i], depth - 1, Low(t.keys, i, lo), High(t.keys, i, hi))
    requires forall i :: 1 <= i < |t.kids| && t.kids[i].Index? ==> FirstKey(t.kids[i]) == t.keys[i]
    ensures Ordered(t, depth, lo, hi)
  {
  }

  lemma {:induction false} HeadOrdered(t: Tree, i: nat, depth: nat, lo: nat, hi: nat)
    requires t.Index? && i < |t.kids| && Ordered(t, depth, lo, hi)
    ensures lo <= Low(t.keys, i, lo)
    ensures Sorted(AllContents(t.kids[..i])) && Within(AllContents(t.kids[..i]), lo, Low(t.keys, i, lo))
  {
    hide Ordered;
    if i > 0 {
      HeadOrdered(t, i - 1, depth, lo, hi);
      KidOrdered(t, i - 1, depth, lo, hi);
      var low, high := Low(t.keys, i - 1, lo), High(t.keys, i - 1, hi);
      ContentsOrdered(t.kids[i - 1], depth - 1, low, high);
      SortedConcat(AllContents(t.kids[..i - 1]), Contents(t.kids[i - 1]), lo, low, high);
      AppendKid(t.kids, i - 1);
    } else {
      KidOrdered(t, 0, depth, lo, hi);
    }
  }

  lemma AppendKid(kids: seq<Tree>, i: nat)
    requires i < |kids|
    ensures AllContents(kids[..i + 1]) == AllContents(kids[..i]) + Contents(kids[i])
  {
    AllSplit(kids[..i + 1], i);
    assert kids[..i + 1][..i] == kids[..i] && kids[..i + 1][i..] == [kids[i]];
    assert AllContents([kids[i]]) == Contents(kids[i]) + [] == Contents(kids[i]);
  }

  // Looking up and adding touch only the part of the contents around the chunk.

  lemma PartPosition(pre: Entries, mid: Entries, post: Entries, chunk: nat)
    requires (forall i :: 0 <= i < |pre| ==> pre[i].chunk < chunk) && (forall i :: 0 <= i < |post| ==> chunk < post[i].chunk)
    ensures var all := pre + mid + post;
      && Position(all, chunk) == |pre| + Position(mid, chunk)
      && Present(all, chunk) == Present(mid, chunk)
      && Lookup(all, chunk) == Lookup(mid, chunk)
  {
    var all, i := pre + mid + post, Position(mid, chunk);
    assert forall k :: |pre| <= k < |pre| + |mid| ==> all[k] == mid[k - |pre|];
    PositionIs(all, chunk, |pre| + i);
  }

  lemma PartWithException(pre: Entries, mid: Entries, post: Entries, chunk: nat, address: nat, writer: Writer, active: Mask)
    requires (forall i :: 0 <= i < |pre| ==> pre[i].chunk < chunk) && (forall i :: 0 <= i < |post| ==> chunk < post[i].chunk)
    ensures WithException(pre + mid + post, chunk, address, writer, active)
         == pre + WithException(mid, chunk, address, writer, active) + post
  {
    hide Position, Lookup, Present, WithVersion, Inserted;
    PartPosition(pre, mid, post, chunk);
    var all, i := pre + mid + post, Position(mid, chunk);
    var e := Entry(chunk, WithVersion(Lookup(mid, chunk), address, writer, active));
    if Present(mid, chunk) {
      PresentInRange(mid, chunk);
      PartUpdate(pre, mid, post, i, e);
    } else {
      PartInsert(pre, mid, post, i, e);
    }
  }

  lemma PartUpdate(pre: Entries, mid: Entries, post: Entries, i: nat, e: Entry)
    requires i < |mid|
    ensures (pre + mid + post)[|pre| + i := e] == pre + mid[i := e] + post
  {
  }

  lemma PartInsert(pre: Entries, mid: Entries, post: Entries, i: nat, e: Entry)
    requires i <= |mid|
    ensures Inserted(pre + mid + post, |pre| + i, e) == pre + Inserted(mid, i, e) + post
  {
    hide Inserted;
    var l, r := Inserted(pre + mid + post, |pre| + i, e), pre + Inserted(mid, i, e) + post;
    assert |l| == |r|;
    forall k | 0 <= k < |l|
      ensures l[k] == r[k]
    {
    }
  }

  lemma PresentInRange(es: Entries, chunk: nat)
    requires Present(es, chunk)
    ensures Position(es, chunk) < |es|
  {
  }
}
