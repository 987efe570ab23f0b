/** Finding and adding exceptions in the tree. */
module ExceptionTree {
  import opened Exceptions
  import PackedLeaf
  import opened TreeSpec

  /** The children of one index block, apart from the block itself. */
  ghost predicate KidsGood(store: Store, keys: seq<nat>, kids: seq<Tree>, slots: nat, depth: nat, lo: nat, hi: nat) {
    AllHeld(store, kids, slots) && AllDistinct(kids) && Ordered(Index(0, keys, kids), depth, lo, hi)
  }

  lemma GoodKids(store: Store, t: Tree, slots: nat, depth: nat, lo: nat, hi: nat)
    requires t.Index? && Good(store, t, slots, depth, lo, hi)
    ensures KidsGood(store, t.keys, t.kids, slots, depth, lo, hi) && t.sector !in AllFoot(t.kids)
  {
  }

  lemma MakeGood(store: Store, t: Tree, slots: nat, depth: nat, lo: nat, hi: nat)
    requires t.Index? && KidsGood(store, t.keys, t.kids, slots, depth, lo, hi) && t.sector !in AllFoot(t.kids)
    requires t.sector in store && NodeHeld(store[t.sector], t.keys, t.kids)
    ensures Good(store, t, slots, depth, lo, hi)
  {
  }

  lemma KidGood(store: Store, t: Tree, i: nat, slots: nat, depth: nat, lo: nat, hi: nat)
    requires t.Index? && Good(store, t, slots, depth, lo, hi) && i < |t.kids|
    ensures Good(store, t.kids[i], slots, depth - 1, Low(t.keys, i, lo), High(t.keys, i, hi))
    ensures Foot(t.kids[i]) <= Foot(t)
  {
    AroundKid(t.kids, i);
    AllHeldSplit(store, t.kids, i, slots);
    assert t.kids[i..][0] == t.kids[i];
  }

  /** Cutting the children in two at separator `keys[h]`. */
  lemma KidsSplit(store: Store, keys: seq<nat>, kids: seq<Tree>, h: nat, slots: nat, depth: nat, lo: nat, hi: nat)
    requires KidsGood(store, keys, kids, slots, depth, lo, hi) && 0 < h < |kids| == |keys|
    ensures KidsGood(store, keys[..h], kids[..h], slots, depth, lo, keys[h])
    ensures KidsGood(store, keys[h..], kids[h..], slots, depth, keys[h], hi)
    ensures AllFoot(kids[..h]) !! AllFoot(kids[h..]) && AllFoot(kids) == AllFoot(kids[..h]) + AllFoot(kids[h..])
    ensures AllContents(kids) == AllContents(kids[..h]) + AllContents(kids[h..])
  {
    AllSplit(kids, h);
    AllHeldSplit(store, kids, h, slots);
    HalvesOrdered(keys, kids, h, depth, lo, hi);
  }

  lemma HalvesOrdered(keys: seq<nat>, kids: seq<Tree>, h: nat, depth: nat, lo: nat, hi: nat)
    requires Ordered(Index(0, keys, kids), depth, lo, hi) && 0 < h < |kids| == |keys|
    ensures Ordered(Index(0, keys[..h], kids[..h]), depth, lo, keys[h])
    ensures Ordered(Index(0, keys[h..], kids[h..]), depth, keys[h], hi)
  {
    hide Ordered;
    var t := Index(0, keys, kids);
    KidOrdered(t, h, depth, lo, hi);
    KidOrdered(t, h - 1, depth, lo, hi);
    HeadOrdered(t, h - 1, depth, lo, hi);
    TailOrdered(t, h, depth, lo, hi);
    var l, r := Index(0, keys[..h], kids[..h]), Index(0, keys[h..], kids[h..]);
    forall i | 0 <= i < h
      ensures Ordered(l.kids[i], depth - 1, Low(l.keys, i, lo), High(l.keys, i, keys[h]))
      ensures i >= 1 && l.kids[i].Index? ==> FirstKey(l.kids[i]) == l.keys[i]
    {
      KidOrdered(t, i, depth, lo, hi);
    }
    forall i | 0 <= i < |kids| - h
      ensures Ordered(r.kids[i], depth - 1, Low(r.keys, i, keys[h]), High(r.keys, i, hi))
      ensures i >= 1 && r.kids[i].Index? ==> FirstKey(r.kids[i]) == r.keys[i]
    {
      KidOrdered(t, h + i, depth, lo, hi);
    }
    MakeOrdered(l, depth, lo, keys[h]);
    MakeOrdered(r, depth, keys[h], hi);
  }

  /** A separator put after child `i`, which is replaced by two. */
  ghost function WithKey(keys: seq<nat>, i: nat, key: nat): seq<nat>
    requires i < |keys|
  {
    keys[..i + 1] + [key] + keys[i + 1..]
  }

  /** A subtree took the place of another, or a pair of subtrees did. */
  ghost predicate SameFirst(a: Tree, t: Tree) {
    a.sector == t.sector && a.Index? == t.Index? && FirstKey(a) == FirstKey(t)
  }

  lemma OneOrdered(keys: seq<nat>, kids: seq<Tree>, i: nat, u: Tree, depth: nat, lo: nat, hi: nat)
    requires Ordered(Index(0, keys, kids), depth, lo, hi) && i < |kids| == |keys|
    requires Ordered(u, depth - 1, Low(keys, i, lo), High(keys, i, hi)) && SameFirst(u, kids[i])
    ensures Replaced(kids, i, [u]) == kids[i := u] && Ordered(Index(0, keys, kids[i := u]), depth, lo, hi)
  {
    hide Ordered;
    var t, t' := Index(0, keys, kids), Index(0, keys, kids[i := u]);
    KidOrdered(t, i, depth, lo, hi);
    forall k | 0 <= k < |kids|
      ensures Ordered(t'.kids[k], depth - 1, Low(keys, k, lo), High(keys, k, hi))
      ensures k >= 1 && t'.kids[k].Index? ==> FirstKey(t'.kids[k]) == keys[k]
    {
      KidOrdered(t, k, depth, lo, hi);
    }
    MakeOrdered(t', depth, lo, hi);
  }

  lemma PairOrdered(keys: seq<nat>, kids: seq<Tree>, i: nat, a: Tree, b: Tree, key: nat, depth: nat, lo: nat, hi: nat)
    requires Ordered(Index(0, keys, kids), depth, lo, hi) && i < |kids| == |keys|
    requires Ordered(a, depth - 1, Low(keys, i, lo), key) && Ordered(b, depth - 1, key, High(keys, i, hi))
    requires SameFirst(a, kids[i]) && (b.Index? ==> FirstKey(b) == key)
    ensures Ordered(Index(0, WithKey(keys, i, key), Replaced(kids, i, [a, b])), depth, lo, hi)
  {
    hide Ordered, Replaced, WithKey;
    var t, t' := Index(0, keys, kids), Index(0, WithKey(keys, i, key), Replaced(kids, i, [a, b]));
    KidOrdered(t, i, depth, lo, hi);
    PairSizes(keys, kids, i, a, b, key);
    forall k | 0 <= k < |t'.kids|
      ensures Ordered(t'.kids[k], depth - 1, Low(t'.keys, k, lo), High(t'.keys, k, hi))
      ensures k >= 1 && t'.kids[k].Index? ==> FirstKey(t'.kids[k]) == t'.keys[k]
    {
      PairAt(keys, kids, i, a, b, key, k);
      if k + 1 < |t'.kids| {
        PairAt(keys, kids, i, a, b, key, k + 1);
      }
      KidOrdered(t, if k <= i then k else k - 1, depth, lo, hi);
    }
    MakeOrdered(t', depth, lo, hi);
  }

  lemma PairSizes(keys: seq<nat>, kids: seq<Tree>, i: nat, a: Tree, b: Tree, key: nat)
    requires i < |kids| == |keys|
    ensures |WithKey(keys, i, key)| == |Replaced(kids, i, [a, b])| == |kids| + 1
  {
  }

  lemma PairAt(keys: seq<nat>, kids: seq<Tree>, i: nat, a: Tree, b: Tree, key: nat, k: nat)
    requires i < |kids| == |keys| && k <= |kids|
    ensures |WithKey(keys, i, key)| == |Replaced(kids, i, [a, b])| == |kids| + 1
    ensures WithKey(keys, i, key)[k] == if k <= i then keys[k] else if k == i + 1 then key else keys[k - 1]
    ensures Replaced(kids, i, [a, b])[k] == if k < i then kids[k] else if k == i then a else if k == i + 1 then b else kids[k - 1]
  {
  }

  /** Replacing child `i` of a good block by one or two good subtrees. */
  lemma ReplacedGood(a: Store, b: Store, t: Tree, i: nat, mid: seq<Tree>, keys: seq<nat>, slots: nat, depth: nat, lo: nat, hi: nat, more: set<nat>)
    requires t.Index? && Good(a, t, slots, depth, lo, hi) && i < |t.kids|
    requires AllHeld(b, mid, slots) && AllDistinct(mid)
    requires AllFoot(mid) == Foot(t.kids[i]) + more && more !! Foot(t)
    requires Agree(a, b, Foot(t) - Foot(t.kids[i]))
    requires Ordered(Index(0, keys, Replaced(t.kids, i, mid)), depth, lo, hi)
    ensures KidsGood(b, keys, Replaced(t.kids, i, mid), slots, depth, lo, hi)
    ensures AllFoot(Replaced(t.kids, i, mid)) == AllFoot(t.kids) + more
    ensures t.sector !in AllFoot(Replaced(t.kids, i, mid))
  {
    hide Ordered, AllHeld;
    GoodKids(a, t, slots, depth, lo, hi);
    ReplacedDistinct(t.kids, i, mid, more);
    ReplacedHeld(a, b, t.kids, i, mid, slots);
  }

  /** What the contents of the block become. */
  lemma ReplacedContents(t: Tree, i: nat, mid: seq<Tree>, depth: nat, lo: nat, hi: nat, chunk: nat, address: nat, writer: Writer, active: Mask)
    requires t.Index? && Ordered(t, depth, lo, hi) && i < |t.kids|
    requires Low(t.keys, i, lo) <= chunk < High(t.keys, i, hi)
    requires AllContents(mid) == WithException(Contents(t.kids[i]), chunk, address, writer, active)
    ensures AllContents(Replaced(t.kids, i, mid)) == WithException(Contents(t), chunk, address, writer, active)
  {
    hide WithException;
    var pre, post := AllContents(t.kids[..i]), AllContents(t.kids[i + 1..]);
    HeadOrdered(t, i, depth, lo, hi);
    if i + 1 < |t.kids| {
      TailOrdered(t, i + 1, depth, lo, hi);
    }
    assert forall k :: 0 <= k < |pre| ==> pre[k].chunk < chunk;
    assert forall k :: 0 <= k < |post| ==> chunk < post[k].chunk by {
      assert i + 1 == |t.kids| ==> post == [];
    }
    hide Ordered;
    AroundKid(t.kids, i);
    AroundMid(t.kids, i, mid);
    PartWithException(pre, Contents(t.kids[i]), post, chunk, address, writer, active);
  }

  /** A new version of `chunk` at `address` to record. */
  datatype Request = Request(chunk: nat, address: nat, writer: Writer, active: Mask)

  ghost function Apply(es: Entries, q: Request): Entries {
    WithException(es, q.chunk, q.address, q.writer, q.active)
  }

  /** In store `b`, `u` stands where `t` stood in store `a`, and records the request besides. Only
      blocks of `t` and fresh ones have changed. */
  ghost predicate Grown(a: Store, b: Store, t: Tree, u: Tree, slots: nat, n: nat, depth: nat, lo: nat, hi: nat, more: set<nat>, q: Request) {
    && Good(b, u, slots, depth, lo, hi) && Fits(u, n) && SameFirst(u, t)
    && Foot(u) == Foot(t) + more && Contents(u) == Apply(Contents(t), q)
    && Agree(a, b, a.Keys - Foot(t)) && b.Keys == a.Keys + more
  }

  /** The same, but `t` had to be split in two at `key`. */
  ghost predicate Forked(a: Store, b: Store, t: Tree, u: Tree, v: Tree, key: nat, slots: nat, n: nat, depth: nat, lo: nat, hi: nat, more: set<nat>, q: Request) {
    && Good(b, u, slots, depth, lo, key) && Good(b, v, slots, depth, key, hi) && Fits(u, n) && Fits(v, n)
    && SameFirst(u, t) && (v.Index? ==> FirstKey(v) == key)
    && Foot(u) !! Foot(v) && Foot(u) + Foot(v) == Foot(t) + more
    && Contents(u) + Contents(v) == Apply(Contents(t), q)
    && Agree(a, b, a.Keys - Foot(t)) && b.Keys == a.Keys + more
  }

  lemma SingleKid(store: Store, u: Tree, slots: nat)
    ensures AllFoot([u]) == Foot(u) && AllContents([u]) == Contents(u)
    ensures AllDistinct([u]) <==> Distinct(u)
    ensures AllHeld(store, [u], slots) <==> Held(store, u, slots)
  {
    assert [u][1..] == [] && Contents(u) + [] == Contents(u);
  }

  lemma PairOfKids(store: Store, u: Tree, v: Tree, slots: nat)
    ensures AllFoot([u, v]) == Foot(u) + Foot(v) && AllContents([u, v]) == Contents(u) + Contents(v)
    ensures AllDistinct([u, v]) <==> Distinct(u) && Distinct(v) && Foot(u) !! Foot(v)
    ensures AllHeld(store, [u, v], slots) <==> Held(store, u, slots) && Held(store, v, slots)
  {
    SingleKid(store, v, slots);
    assert [u, v][1..] == [v];
  }

  /** Growth of a child is growth of its parent. */
  lemma GrownUp(a: Store, b: Store, t: Tree, i: nat, u: Tree, slots: nat, n: nat, depth: nat, lo: nat, hi: nat, more: set<nat>, q: Request)
    requires t.Index? && Good(a, t, slots, depth, lo, hi) && Fits(t, n) && i < |t.kids| == |t.keys| && depth > 0
    requires Low(t.keys, i, lo) <= q.chunk < High(t.keys, i, hi) && more !! Foot(t)
    requires Grown(a, b, t.kids[i], u, slots, n, depth - 1, Low(t.keys, i, lo), High(t.keys, i, hi), more, q)
    ensures Grown(a, b, t, Index(t.sector, t.keys, t.kids[i := u]), slots, n, depth, lo, hi, more, q)
  {
    hide Ordered, Held, Distinct, Apply, Foot, Contents, Fits;
    var r := Index(t.sector, t.keys, t.kids[i := u]);
    GoodKids(a, t, slots, depth, lo, hi);
    KidGood(a, t, i, slots, depth, lo, hi);
    FootHeld(a, t, slots);
    OneOrdered(t.keys, t.kids, i, u, depth, lo, hi);
    SingleKid(b, u, slots);
    ReplacedGood(a, b, t, i, [u], t.keys, slots, depth, lo, hi, more);
    IndexFoot(t);
    IndexFoot(r);
    NodeKept(a, b, t, i, u, slots);
    MakeGood(b, r, slots, depth, lo, hi);
    ReplacedApply(t, i, [u], depth, lo, hi, q);
    FitsReplaced(t, i, u, n);
  }

  lemma IndexFoot(t: Tree)
    requires t.Index?
    ensures Foot(t) == {t.sector} + AllFoot(t.kids) && Contents(t) == AllContents(t.kids)
  {
  }

  lemma NodeKept(a: Store, b: Store, t: Tree, i: nat, u: Tree, slots: nat)
    requires t.Index? && Held(a, t, slots) && Distinct(t) && i < |t.kids| && u.sector == t.kids[i].sector
    requires Agree(a, b, a.Keys - Foot(t.kids[i]))
    ensures t.sector in b && NodeHeld(b[t.sector], t.keys, t.kids[i := u])
  {
    AroundKid(t.kids, i);
    assert t.sector !in Foot(t.kids[i]);
  }

  lemma ReplacedApply(t: Tree, i: nat, mid: seq<Tree>, depth: nat, lo: nat, hi: nat, q: Request)
    requires t.Index? && Ordered(t, depth, lo, hi) && i < |t.kids| == |t.keys|
    requires Low(t.keys, i, lo) <= q.chunk < High(t.keys, i, hi)
    requires AllContents(mid) == Apply(Contents(t.kids[i]), q)
    ensures AllContents(Replaced(t.kids, i, mid)) == Apply(Contents(t), q)
  {
    ReplacedContents(t, i, mid, depth, lo, hi, q.chunk, q.address, q.writer, q.active);
  }

  lemma FitsReplaced(t: Tree, i: nat, u: Tree, n: nat)
    requires t.Index? && Fits(t, n) && i < |t.kids| && Fits(u, n)
    ensures Fits(Index(t.sector, t.keys, t.kids[i := u]), n)
  {
  }

  function InsertedAt(entries: seq<IndexEntry>, p: nat, e: IndexEntry): seq<IndexEntry>
    requires p <= |entries|
  {
    entries[..p] + [e] + entries[p..]
  }

  /** Inserting the new child's entry after the old one's makes the block hold both. */
  lemma NodeInserted(entries: seq<IndexEntry>, keys: seq<nat>, kids: seq<Tree>, i: nat, u: Tree, v: Tree, key: nat)
    requires NodeHeld(Node(entries), keys, kids) && i < |kids| && u.sector == kids[i].sector
    ensures NodeHeld(Node(InsertedAt(entries, i + 1, IndexEntry(key, v.sector))), WithKey(keys, i, key), Replaced(kids, i, [u, v]))
  {
    hide WithKey, Replaced;
    var r := InsertedAt(entries, i + 1, IndexEntry(key, v.sector));
    PairSizes(keys, kids, i, u, v, key);
    forall k | 0 <= k < |r|
      ensures r[k] == IndexEntry(WithKey(keys, i, key)[k], Replaced(kids, i, [u, v])[k].sector)
    {
      PairAt(keys, kids, i, u, v, key, k);
    }
  }

  /** The children of `t` with child `i` forked into `u` and `v`. */
  lemma ForkedKids(a: Store, b: Store, t: Tree, i: nat, u: Tree, v: Tree, key: nat, slots: nat, n: nat, depth: nat, lo: nat, hi: nat, more: set<nat>, q: Request)
    requires t.Index? && Good(a, t, slots, depth, lo, hi) && Fits(t, n) && i < |t.kids| == |t.keys| && depth > 0
    requires Low(t.keys, i, lo) <= q.chunk < High(t.keys, i, hi) && more !! Foot(t)
    requires Forked(a, b, t.kids[i], u, v, key, slots, n, depth - 1, Low(t.keys, i, lo), High(t.keys, i, hi), more, q)
    ensures var keys, kids := WithKey(t.keys, i, key), Replaced(t.kids, i, [u, v]);
      && KidsGood(b, keys, kids, slots, depth, lo, hi) && AllFoot(kids) == AllFoot(t.kids) + more
      && t.sector !in AllFoot(kids) && AllContents(kids) == Apply(Contents(t), q)
      && t.sector in a && t.sector in b && b[t.sector] == a[t.sector] && NodeHeld(a[t.sector], t.keys, t.kids)
      && (forall k :: 0 <= k < |kids| ==> Fits(kids[k], n))
      && |keys| == |kids| == |t.kids| + 1 && keys[0] == t.keys[0]
  {
    hide Ordered, Held, Distinct, Apply, Foot, Contents, Fits;
    GoodKids(a, t, slots, depth, lo, hi);
    KidGood(a, t, i, slots, depth, lo, hi);
    FootHeld(a, t, slots);
    PairOrdered(t.keys, t.kids, i, u, v, key, depth, lo, hi);
    PairOfKids(b, u, v, slots);
    ReplacedGood(a, b, t, i, [u, v], WithKey(t.keys, i, key), slots, depth, lo, hi, more);
    NodeKept(a, b, t, i, u, slots);
    NodeOf(a, t, slots);
    ReplacedApply(t, i, [u, v], depth, lo, hi, q);
    NodeApart(a, t, i, slots);
    FitsPair(t, i, u, v, n);
  }

  lemma NodeOf(a: Store, t: Tree, slots: nat)
    requires t.Index? && Held(a, t, slots)
    ensures t.sector in a && NodeHeld(a[t.sector], t.keys, t.kids)
  {
  }

  lemma NodeApart(a: Store, t: Tree, i: nat, slots: nat)
    requires t.Index? && Distinct(t) && i < |t.kids|
    ensures t.sector !in Foot(t.kids[i])
  {
    AroundKid(t.kids, i);
  }

  lemma FitsPair(t: Tree, i: nat, u: Tree, v: Tree, n: nat)
    requires t.Index? && Fits(t, n) && i < |t.kids| && Fits(u, n) && Fits(v, n)
    ensures forall k :: 0 <= k < |Replaced(t.kids, i, [u, v])| ==> Fits(Replaced(t.kids, i, [u, v])[k], n)
  {
  }

  /** A parent with room takes in the new child. */
  lemma ForkAbsorbed(a: Store, b: Store, c: Store, t: Tree, i: nat, u: Tree, v: Tree, key: nat, slots: nat, n: nat, depth: nat, lo: nat, hi: nat, more: set<nat>, q: Request)
    requires t.Index? && Good(a, t, slots, depth, lo, hi) && Fits(t, n) && i < |t.kids| == |t.keys| && depth > 0
    requires Low(t.keys, i, lo) <= q.chunk < High(t.keys, i, hi) && more !! Foot(t)
    requires Forked(a, b, t.kids[i], u, v, key, slots, n, depth - 1, Low(t.keys, i, lo), High(t.keys, i, hi), more, q)
    requires |t.kids| < n && t.sector in a && a[t.sector].Node? && i + 1 <= |a[t.sector].entries|
    requires c == b[t.sector := Node(InsertedAt(a[t.sector].entries, i + 1, IndexEntry(key, v.sector)))]
    ensures Grown(a, c, t, Index(t.sector, WithKey(t.keys, i, key), Replaced(t.kids, i, [u, v])), slots, n, depth, lo, hi, more, q)
  {
    hide Ordered, Held, Distinct, Apply, Foot, Contents, AllHeld, AllDistinct, AllFoot, AllContents;
    var r := Index(t.sector, WithKey(t.keys, i, key), Replaced(t.kids, i, [u, v]));
    ForkedKids(a, b, t, i, u, v, key, slots, n, depth, lo, hi, more, q);
    AllHeldFrame(b, c, r.kids, slots);
    NodeInserted(a[t.sector].entries, t.keys, t.kids, i, u, v, key);
    MakeGood(c, r, slots, depth, lo, hi);
    IndexFoot(r);
    IndexFoot(t);
    KidGood(a, t, i, slots, depth, lo, hi);
  }

  /** A full parent is split in its turn: the block keeps the first `h` entries and a new block
      takes the rest. */
  lemma ForkPassed(a: Store, b: Store, c: Store, t: Tree, i: nat, u: Tree, v: Tree, key: nat, entries: seq<IndexEntry>, h: nat, s: nat,
                   slots: nat, n: nat, depth: nat, lo: nat, hi: nat, more: set<nat>, q: Request)
    requires t.Index? && Good(a, t, slots, depth, lo, hi) && Fits(t, n) && i < |t.kids| == |t.keys| && depth > 0
    requires Low(t.keys, i, lo) <= q.chunk < High(t.keys, i, hi) && more !! Foot(t)
    requires Forked(a, b, t.kids[i], u, v, key, slots, n, depth - 1, Low(t.keys, i, lo), High(t.keys, i, hi), more, q)
    requires t.sector in a && a[t.sector].Node? && i + 1 <= |a[t.sector].entries|
    requires entries == InsertedAt(a[t.sector].entries, i + 1, IndexEntry(key, v.sector))
    requires 0 < h <= |t.kids| && h <= n && |t.kids| + 1 - h <= n
    requires s !in a && s !in Foot(t) + more && h <= |entries|
    requires c == b[t.sector := Node(entries[..h])][s := Node(entries[h..])]
    ensures var keys, kids := WithKey(t.keys, i, key), Replaced(t.kids, i, [u, v]);
      && |keys| == |kids| == |entries| > h && entries[h].key == keys[h]
      && Forked(a, c, t, Index(t.sector, keys[..h], kids[..h]), Index(s, keys[h..], kids[h..]), keys[h], slots, n, depth, lo, hi, more + {s}, q)
  {
    hide Ordered, Held, Distinct, Apply, Foot, Contents, AllHeld, AllDistinct, AllFoot, AllContents, WithKey, Replaced;
    var keys, kids := WithKey(t.keys, i, key), Replaced(t.kids, i, [u, v]);
    ForkedKids(a, b, t, i, u, v, key, slots, n, depth, lo, hi, more, q);
    NodeInserted(a[t.sector].entries, t.keys, t.kids, i, u, v, key);
    KidsSplit(b, keys, kids, h, slots, depth, lo, hi);
    var l, r := Index(t.sector, keys[..h], kids[..h]), Index(s, keys[h..], kids[h..]);
    IndexFoot(t);
    IndexFoot(l);
    IndexFoot(r);
    AllHeldFrame(b, c, l.kids, slots);
    AllHeldFrame(b, c, r.kids, slots);
    MakeGood(c, l, slots, depth, lo, keys[h]);
    MakeGood(c, r, slots, depth, keys[h], hi);
    KidGood(a, t, i, slots, depth, lo, hi);
  }

  // The way down

  /** A block on the way down and the index entry after the one followed. */
  datatype Step = Step(sector: nat, next: nat)

  /** The subtrees on the way down and the ranges they cover. */
  datatype Trail = Trail(trees: seq<Tree>, los: seq<nat>, his: seq<nat>)

  ghost predicate OnTrail(path: seq<Step>, tr: Trail, chunk: nat) {
    && |tr.trees| == |tr.los| == |tr.his| == |path| + 1
    && (forall l :: 0 <= l < |path| ==> Follows(path[l], tr.trees[l], tr.trees[l + 1], tr.los[l], tr.his[l], tr.los[l + 1], tr.his[l + 1]))
    && forall l :: 0 <= l <= |path| ==> tr.los[l] <= chunk < tr.his[l]
  }

  ghost predicate Follows(step: Step, t: Tree, kid: Tree, lo: nat, hi: nat, low: nat, high: nat) {
    && t.Index? && step.sector == t.sector && 1 <= step.next <= |t.kids| == |t.keys|
    && kid == t.kids[step.next - 1]
    && low == Low(t.keys, step.next - 1, lo) && high == High(t.keys, step.next - 1, hi)
  }

  lemma FitsKid(t: Tree, i: nat, n: nat)
    requires t.Index? && i < |t.kids| && Fits(t, n)
    ensures Fits(t.kids[i], n) && |t.kids| <= n
  {
  }

  lemma {:induction false} TrailGood(store: Store, path: seq<Step>, tr: Trail, chunk: nat, l: nat, slots: nat, n: nat, depth: nat)
    requires OnTrail(path, tr, chunk) && l <= |path| <= depth
    requires Good(store, tr.trees[0], slots, depth, tr.los[0], tr.his[0]) && Fits(tr.trees[0], n)
    ensures Good(store, tr.trees[l], slots, depth - l, tr.los[l], tr.his[l]) && Fits(tr.trees[l], n)
    ensures Foot(tr.trees[l]) <= Foot(tr.trees[0])
  {
    hide Good, Foot, Fits;
    if l > 0 {
      TrailGood(store, path, tr, chunk, l - 1, slots, n, depth);
      assert Follows(path[l - 1], tr.trees[l - 1], tr.trees[l - 1 + 1], tr.los[l - 1], tr.his[l - 1], tr.los[l - 1 + 1], tr.his[l - 1 + 1]);
      KidGood(store, tr.trees[l - 1], path[l - 1].next - 1, slots, depth - l + 1, tr.los[l - 1], tr.his[l - 1]);
      FitsKid(tr.trees[l - 1], path[l - 1].next - 1, n);
    }
  }

  /** Growth at the end of the trail is growth of the whole tree. */
  lemma {:induction false} GraftUp(a: Store, b: Store, path: seq<Step>, tr: Trail, l: nat, u: Tree, slots: nat, n: nat, depth: nat, more: set<nat>, q: Request)
      returns (r: Tree)
    requires OnTrail(path, tr, q.chunk) && l <= |path| <= depth
    requires Good(a, tr.trees[0], slots, depth, tr.los[0], tr.his[0]) && Fits(tr.trees[0], n) && more !! Foot(tr.trees[0])
    requires Grown(a, b, tr.trees[l], u, slots, n, depth - l, tr.los[l], tr.his[l], more, q)
    ensures Grown(a, b, tr.trees[0], r, slots, n, depth, tr.los[0], tr.his[0], more, q)
  {
    hide Good, Foot, Fits, Grown;
    if l == 0 {
      r := u;
    } else {
      var t, i := tr.trees[l - 1], path[l - 1].next - 1;
      assert Follows(path[l - 1], tr.trees[l - 1], tr.trees[l - 1 + 1], tr.los[l - 1], tr.his[l - 1], tr.los[l - 1 + 1], tr.his[l - 1 + 1]);
      TrailGood(a, path, tr, q.chunk, l - 1, slots, n, depth);
      GrownUp(a, b, t, i, u, slots, n, depth - (l - 1), tr.los[l - 1], tr.his[l - 1], more, q);
      r := GraftUp(a, b, path, tr, l - 1, Index(t.sector, t.keys, t.kids[i := u]), slots, n, depth, more, q);
    }
  }

  // Leaves

  lemma WithinApplied(es: Entries, lo: nat, hi: nat, q: Request)
    requires Sorted(es) && Within(es, lo, hi) && lo <= q.chunk < hi
    ensures Sorted(Apply(es, q)) && Within(Apply(es, q), lo, hi)
  {
    hide WithVersion, Lookup;
    WithExceptionLookup(es, q.chunk, q.address, q.writer, q.active, q.chunk);
  }

  /** Every chunk has versions, and no more than there are snapshots. */
  ghost predicate Bounded(es: Entries) {
    forall i :: 0 <= i < |es| ==> 1 <= |es[i].list| <= 64
  }

  /** In a block of at least 2048 bytes, a single chunk always leaves room for another. */
  lemma ShortLeafFits(es: Entries)
    requires Bounded(es) && |es| <= 1
    ensures Payload(es) <= 129
  {
    if |es| == 1 {
      assert es[1..] == [];
      assert Versions(es) == |es[0].list| + Versions(es[1..]);
    }
  }

  lemma {:induction false} VersionsAtLeast(es: Entries)
    requires Bounded(es)
    ensures Versions(es) >= |es|
  {
    if es != [] {
      assert Bounded(es[1..]);
      VersionsAtLeast(es[1..]);
    }
  }

  /** Each half of a split leaf has room for one more chunk. */
  lemma HalfHasRoom(es: Entries, n: nat, slots: nat)
    requires Bounded(es) && 0 < n < |es| && Payload(es) <= 2 * slots - 4
    ensures Payload(es[..n]) <= 2 * slots - 7 && Payload(es[n..]) <= 2 * slots - 7
  {
    assert es == es[..n] + es[n..] && Bounded(es[..n]) && Bounded(es[n..]);
    VersionsConcat(es[..n], es[n..]);
    VersionsAtLeast(es[..n]);
    VersionsAtLeast(es[n..]);
  }

  /** A leaf that had room. */
  lemma LeafGrown(a: Store, b: Store, t: Tree, image: PackedLeaf.Image, slots: nat, n: nat, lo: nat, hi: nat, q: Request)
    requires t.Leaf? && Good(a, t, slots, 0, lo, hi) && lo <= q.chunk < hi
    requires b == a[t.sector := LeafBlock(image)] && LeafHeld(LeafBlock(image), Apply(t.es, q), slots)
    ensures Grown(a, b, t, Tree.Leaf(t.sector, Apply(t.es, q)), slots, n, 0, lo, hi, {}, q)
  {
    WithinApplied(t.es, lo, hi, q);
    hide Apply;
  }

  /** A leaf that had to be split at entry `h`. */
  lemma LeafForked(a: Store, b: Store, t: Tree, h: nat, left: PackedLeaf.Image, right: PackedLeaf.Image, s: nat,
                   slots: nat, n: nat, lo: nat, hi: nat, q: Request) returns (u: Tree, v: Tree)
    requires t.Leaf? && Good(a, t, slots, 0, lo, hi) && lo <= q.chunk < hi && 0 < h < |t.es| && s !in a
    requires b == a[t.sector := LeafBlock(left)][s := LeafBlock(right)]
    requires var key := t.es[h].chunk;
      && LeafHeld(LeafBlock(left), if q.chunk < key then Apply(t.es[..h], q) else t.es[..h], slots)
      && LeafHeld(LeafBlock(right), if q.chunk < key then t.es[h..] else Apply(t.es[h..], q), slots)
    ensures v.sector == s && Forked(a, b, t, u, v, t.es[h].chunk, slots, n, 0, lo, hi, {s}, q)
  {
    hide Apply, LeafHeld, Good;
    var es, key := t.es, t.es[h].chunk;
    var l, r := es[..h], es[h..];
    HalvesOfLeaf(a, t, h, slots, lo, hi);
    if q.chunk < key {
      PartApply([], l, r, q);
      assert [] + l + r == es && [] + Apply(l, q) + r == Apply(l, q) + r;
      WithinApplied(l, lo, key, q);
      u, v := Tree.Leaf(t.sector, Apply(l, q)), Tree.Leaf(s, r);
    } else {
      PartApply(l, r, [], q);
      assert l + r + [] == es && l + Apply(r, q) + [] == l + Apply(r, q);
      WithinApplied(r, key, hi, q);
      u, v := Tree.Leaf(t.sector, l), Tree.Leaf(s, Apply(r, q));
    }
    LeafPair(a, b, t, u, v, key, slots, n, lo, hi, q);
  }

  lemma HalvesOfLeaf(a: Store, t: Tree, h: nat, slots: nat, lo: nat, hi: nat)
    requires t.Leaf? && Good(a, t, slots, 0, lo, hi) && 0 < h < |t.es|
    ensures var key, l, r := t.es[h].chunk, t.es[..h], t.es[h..];
      && t.es == l + r && Sorted(l) && Sorted(r) && Within(l, lo, key) && Within(r, key, hi) && lo < key < hi
      && (forall k :: 0 <= k < |l| ==> l[k].chunk < key) && (forall k :: 0 <= k < |r| ==> key <= r[k].chunk)
      && t.sector in a
  {
    LeafFacts(a, t, slots, lo, hi);
    hide Good;
    CutSorted(t.es, h, lo, hi);
  }

  lemma LeafFacts(a: Store, t: Tree, slots: nat, lo: nat, hi: nat)
    requires t.Leaf? && Good(a, t, slots, 0, lo, hi)
    ensures t.sector in a && LeafHeld(a[t.sector], t.es, slots) && Sorted(t.es) && Within(t.es, lo, hi)
  {
  }

  lemma CutSorted(es: Entries, h: nat, lo: nat, hi: nat)
    requires Sorted(es) && Within(es, lo, hi) && 0 < h < |es|
    ensures var key, l, r := es[h].chunk, es[..h], es[h..];
      && es == l + r && Sorted(l) && Sorted(r) && Within(l, lo, key) && Within(r, key, hi) && lo < key < hi
      && (forall k :: 0 <= k < |l| ==> l[k].chunk < key) && (forall k :: 0 <= k < |r| ==> key <= r[k].chunk)
  {
    assert lo <= es[0].chunk < es[h].chunk;
  }

  lemma PartApply(pre: Entries, mid: Entries, post: Entries, q: Request)
    requires (forall i :: 0 <= i < |pre| ==> pre[i].chunk < q.chunk) && (forall i :: 0 <= i < |post| ==> q.chunk < post[i].chunk)
    ensures Apply(pre + mid + post, q) == pre + Apply(mid, q) + post
  {
    PartWithException(pre, mid, post, q.chunk, q.address, q.writer, q.active);
  }

  lemma LeafPair(a: Store, b: Store, t: Tree, u: Tree, v: Tree, key: nat, slots: nat, n: nat, lo: nat, hi: nat, q: Request)
    requires t.Leaf? && u.Leaf? && v.Leaf? && u.sector == t.sector && v.sector !in a && t.sector in a
    requires u.sector in b && LeafHeld(b[u.sector], u.es, slots) && v.sector in b && LeafHeld(b[v.sector], v.es, slots)
    requires Sorted(u.es) && Within(u.es, lo, key) && Sorted(v.es) && Within(v.es, key, hi) && lo < key < hi
    requires u.es + v.es == Apply(t.es, q)
    requires (forall s :: s in a && s != t.sector ==> s in b && b[s] == a[s]) && b.Keys == a.Keys + {v.sector}
    ensures Forked(a, b, t, u, v, key, slots, n, 0, lo, hi, {v.sector}, q)
  {
    hide Apply, LeafHeld;
  }

  /** The first entry from `next` on whose key is above `chunk`. */
  function Followed(entries: seq<IndexEntry>, chunk: nat, next: nat): (r: nat)
    requires next <= |entries|
    ensures next <= r <= |entries|
    decreases |entries| - next
  {
    if next < |entries| && entries[next].key <= chunk then Followed(entries, chunk, next + 1) else next
  }

  /** The block that a chunk leads to, so many levels down. */
  function Reach(store: Store, sector: nat, chunk: nat, levels: nat): nat
    decreases levels
  {
    if levels > 0 && sector in store && store[sector].Node? && store[sector].entries != []
    then Reach(store, store[sector].entries[Followed(store[sector].entries, chunk, 1) - 1].sector, chunk, levels - 1)
    else sector
  }

  lemma IndexFacts(store: Store, t: Tree, slots: nat, depth: nat, lo: nat, hi: nat)
    requires Good(store, t, slots, depth, lo, hi) && depth > 0
    ensures t.Index? && 1 <= |t.kids| == |t.keys| && t.sector in store && NodeHeld(store[t.sector], t.keys, t.kids)
  {
  }

  /** How many index blocks right above the leaf that a chunk leads to are full, one after the other. */
  function Overfull(store: Store, sector: nat, chunk: nat, levels: nat, perNode: nat): nat
    decreases levels
  {
    if levels > 0 && sector in store && store[sector].Node? && store[sector].entries != [] then
      var entries := store[sector].entries;
      var below := Overfull(store, entries[Followed(entries, chunk, 1) - 1].sector, chunk, levels - 1, perNode);
      if below == levels - 1 && |entries| >= perNode then levels else below
    else 0
  }

  /** Each step of the path follows the chunk to the next one, and the last one to the leaf. */
  ghost predicate Led(store: Store, path: seq<Step>, leaf: nat, chunk: nat) {
    forall k :: 0 <= k < |path| ==> LedAt(store, path[k], Entered(path, leaf, k + 1), chunk)
  }

  ghost predicate LedAt(store: Store, step: Step, to: nat, chunk: nat) {
    && step.sector in store && store[step.sector].Node? && store[step.sector].entries != []
    && step.next == Followed(store[step.sector].entries, chunk, 1) && store[step.sector].entries[step.next - 1].sector == to
  }

  lemma LedStart(store: Store, leaf: nat, chunk: nat)
    ensures Led(store, [], leaf, chunk)
  {
  }

  lemma LedNext(store: Store, path: seq<Step>, step: Step, to: nat, chunk: nat)
    requires Led(store, path, step.sector, chunk) && LedAt(store, step, to, chunk)
    ensures Led(store, path + [step], to, chunk)
  {
    hide LedAt;
    var more := path + [step];
    forall k | 0 <= k < |more|
      ensures LedAt(store, more[k], Entered(more, to, k + 1), chunk)
    {
      if k < |path| {
        assert LedAt(store, path[k], Entered(path, step.sector, k + 1), chunk);
        assert more[k] == path[k] && Entered(more, to, k + 1) == Entered(path, step.sector, k + 1);
      }
    }
  }

  ghost function Entered(path: seq<Step>, leaf: nat, l: nat): nat
    requires l <= |path|
  {
    if l < |path| then path[l].sector else leaf
  }

  ghost predicate FullFrom(store: Store, path: seq<Step>, l: nat, perNode: nat) {
    forall k :: l <= k < |path| ==> path[k].sector in store && store[path[k].sector].Node? && |store[path[k].sector].entries| >= perNode
  }

  lemma FullEnd(store: Store, path: seq<Step>, perNode: nat)
    ensures FullFrom(store, path, |path|, perNode)
  {
  }

  lemma FullMore(store: Store, path: seq<Step>, l: nat, perNode: nat)
    requires FullFrom(store, path, l + 1, perNode) && l < |path|
    requires path[l].sector in store && store[path[l].sector].Node? && |store[path[l].sector].entries| >= perNode
    ensures FullFrom(store, path, l, perNode)
  {
  }

  lemma {:induction false} AllOverfull(store: Store, path: seq<Step>, leaf: nat, chunk: nat, l: nat, perNode: nat)
    requires Led(store, path, leaf, chunk) && l <= |path| && FullFrom(store, path, l, perNode)
    ensures Overfull(store, Entered(path, leaf, l), chunk, |path| - l, perNode) == |path| - l
    decreases |path| - l
  {
    hide Led, Overfull;
    if l < |path| {
      OverfullStep(store, path, leaf, chunk, l, perNode);
      AllOverfull(store, path, leaf, chunk, l + 1, perNode);
    } else {
      NoneOverfull(store, leaf, chunk, perNode);
    }
  }

  lemma NoneOverfull(store: Store, leaf: nat, chunk: nat, perNode: nat)
    ensures Overfull(store, leaf, chunk, 0, perNode) == 0
  {
  }

  lemma OverfullStep(store: Store, path: seq<Step>, leaf: nat, chunk: nat, l: nat, perNode: nat)
    requires Led(store, path, leaf, chunk) && l < |path|
    ensures path[l].sector in store && store[path[l].sector].Node?
    ensures var below := Overfull(store, Entered(path, leaf, l + 1), chunk, |path| - (l + 1), perNode);
      Overfull(store, Entered(path, leaf, l), chunk, |path| - l, perNode)
      == if below == |path| - (l + 1) && |store[path[l].sector].entries| >= perNode then |path| - l else below
  {
    LedStep(store, path, leaf, chunk, l);
    hide Led;
  }

  lemma LedStep(store: Store, path: seq<Step>, leaf: nat, chunk: nat, l: nat)
    requires Led(store, path, leaf, chunk) && l < |path|
    ensures LedAt(store, path[l], Entered(path, leaf, l + 1), chunk)
  {
  }

  /** The blocks below `l` are full and that one is not. */
  lemma {:induction false} OverfullTo(store: Store, path: seq<Step>, leaf: nat, chunk: nat, l: nat, k: nat, perNode: nat)
    requires Led(store, path, leaf, chunk) && k <= l < |path| && FullFrom(store, path, l + 1, perNode)
    requires path[l].sector in store && store[path[l].sector].Node? && |store[path[l].sector].entries| < perNode
    ensures Overfull(store, Entered(path, leaf, k), chunk, |path| - k, perNode) == |path| - 1 - l
    decreases l - k
  {
    hide Led, Overfull;
    OverfullStep(store, path, leaf, chunk, k, perNode);
    if k == l {
      AllOverfull(store, path, leaf, chunk, l + 1, perNode);
    } else {
      OverfullTo(store, path, leaf, chunk, l, k + 1, perNode);
    }
  }

  /** The blocks that a split leaf takes: one for itself, one for every full block above it up to the first
      with room, and one for a new root if there is none. */
  function Needed(overfull: nat, levels: nat): nat {
    1 + overfull + if overfull == levels then 1 else 0
  }

  /** The superblock's root and levels, and the blocks they lead to. */
  class Btree {
    var store: Store
    var root: nat
    var levels: nat
    const slots: nat
    const perNode: nat
    ghost var tree: Tree

    ghost predicate Valid()
      reads this
    {
      && levels >= 1 && perNode >= 2 && slots >= 128 && root == tree.sector
      && Good(store, tree, slots, levels, 0, LIMIT) && Fits(tree, perNode)
    }

    /** A root over one empty leaf. */
    constructor (slots: nat, perNode: nat, leaf: nat, node: nat)
      requires slots >= 128 && perNode >= 2 && leaf != node
      ensures Valid() && Contents(tree) == [] && levels == 1 && this.slots == slots && this.perNode == perNode
      ensures store.Keys == {leaf, node} == Foot(tree)
    {
      this.slots, this.perNode := slots, perNode;
      var empty := new PackedLeaf.Leaf(slots);
      var image := empty.Save();
      store := map[leaf := LeafBlock(image), node := Node([IndexEntry(0, leaf)])];
      root, levels := node, 1;
      var kid := Tree.Leaf(leaf, []);
      tree := Index(node, [0], [kid]);
      new;
      SingleKid(store, kid, slots);
      SeedGood(store, tree, leaf, slots, perNode);
    }

    /** Follows the last entry whose key is not above `chunk`, block by block, down to a leaf. */
    method Probe(chunk: nat) returns (path: seq<Step>, leaf: nat, ghost tr: Trail)
      requires Valid() && chunk < LIMIT
      ensures |path| == levels && OnTrail(path, tr, chunk)
      ensures tr.trees[0] == tree && tr.los[0] == 0 && tr.his[0] == LIMIT
      ensures tr.trees[levels].Leaf? && leaf == tr.trees[levels].sector == Reach(store, root, chunk, levels)
      ensures Good(store, tr.trees[levels], slots, 0, tr.los[levels], tr.his[levels])
      ensures Led(store, path, leaf, chunk) && (levels > 0 ==> path[0].sector == root)
    {
      hide Good, Fits, Led;
      path, leaf := [], root;
      LedStart(store, root, chunk);
      tr := Trail([tree], [0], [LIMIT]);
      for i := 0 to levels
        invariant |path| == i && OnTrail(path, tr, chunk)
        invariant tr.trees[0] == tree && tr.los[0] == 0 && tr.his[0] == LIMIT
        invariant leaf == tr.trees[i].sector && Reach(store, root, chunk, levels) == Reach(store, leaf, chunk, levels - i)
        invariant Good(store, tr.trees[i], slots, levels - i, tr.los[i], tr.his[i])
        invariant Led(store, path, leaf, chunk) && (if i == 0 then leaf == root else path[0].sector == root)
      {
        var next;
        ghost var t, lo, hi := tr.trees[i], tr.los[i], tr.his[i];
        next := NextEntry(leaf, chunk, t, levels - i, lo, hi);
        KidGood(store, t, next - 1, slots, levels - i, lo, hi);
        LedNext(store, path, Step(leaf, next), store[leaf].entries[next - 1].sector, chunk);
        path := path + [Step(leaf, next)];
        leaf := store[leaf].entries[next - 1].sector;
        tr := Trail(tr.trees + [t.kids[next - 1]], tr.los + [Low(t.keys, next - 1, lo)], tr.his + [High(t.keys, next - 1, hi)]);
      }
      LeafAtDepthZero(store, tr.trees[levels], slots, tr.los[levels], tr.his[levels]);
    }

    /** The first entry, after the first, whose key is above `chunk`. */
    method NextEntry(sector: nat, chunk: nat, ghost t: Tree, ghost depth: nat, ghost lo: nat, ghost hi: nat) returns (next: nat)
      requires Good(store, t, slots, depth, lo, hi) && depth > 0 && sector == t.sector && lo <= chunk < hi
      ensures t.Index? && 1 <= next <= |t.kids| == |t.keys|
      ensures Low(t.keys, next - 1, lo) <= chunk < High(t.keys, next - 1, hi)
      ensures sector in store && store[sector].Node? && |store[sector].entries| == |t.kids|
      ensures store[sector].entries[next - 1].sector == t.kids[next - 1].sector && next == Followed(store[sector].entries, chunk, 1)
    {
      hide Good;
      IndexFacts(store, t, slots, depth, lo, hi);
      var entries := store[sector].entries;
      next := 1;
      while next < |entries| && entries[next].key <= chunk
        invariant 1 <= next <= |entries| && Followed(entries, chunk, 1) == Followed(entries, chunk, next)
        invariant Low(t.keys, next - 1, lo) <= chunk
      {
        next := next + 1;
      }
    }

    /** Sectors that the allocator hands out: distinct, and none of them in use. */
    ghost predicate Unused(sectors: seq<nat>)
      reads this
    {
      && (forall i :: 0 <= i < |sectors| ==> sectors[i] !in store)
      && forall i, j :: 0 <= i < j < |sectors| ==> sectors[i] != sectors[j]
    }

    /** Splits a full leaf, records the new version in the half it belongs to, and gives the first
        chunk of the upper half, which goes to sector `s`. */
    method SplitLeaf(q: Request, sector: nat, s: nat, leaf: PackedLeaf.Leaf, ghost t: Tree, ghost lo: nat, ghost hi: nat)
        returns (key: nat, ghost u: Tree, ghost v: Tree)
      requires t.Leaf? && Good(store, t, slots, 0, lo, hi) && sector == t.sector && s !in store && lo <= q.chunk < hi
      requires leaf.Valid() && leaf.Entries() == t.es && leaf.exc.Length == slots && leaf.View().Free() < 3
      requires Bounded(t.es) && slots >= 128
      modifies this`store, leaf, leaf.dir, leaf.exc
      ensures v.sector == s && Forked(old(store), store, t, u, v, key, slots, perNode, 0, lo, hi, {s}, q)
    {
      hide Apply, Good, Forked, Bounded;
      LeafFacts(store, t, slots, lo, hi);
      ghost var n := (|t.es| + 1) / 2;
      var child;
      key, child := DivideLeaf(q, leaf, slots, t.es, lo, hi);
      var left := leaf.Save();
      var right := child.Save();
      ghost var before := store;
      store := store[sector := LeafBlock(left)][s := LeafBlock(right)];
      u, v := LeafForked(before, store, t, n, left, right, s, slots, perNode, lo, hi, q);
    }

    /** Puts a new child's entry into the block at one step of the path, or splits that block. */
    method ClimbOne(q: Request, step: Step, key0: nat, child: nat, spare: nat,
                    ghost before: Store, ghost path: seq<Step>, ghost tr: Trail, ghost l: nat, ghost u0: Tree, ghost v0: Tree, ghost more: set<nat>)
        returns (done: bool, key: nat, ghost u: Tree, ghost v: Tree)
      requires l < |path| == levels && step == path[l] && perNode >= 2 && OnTrail(path, tr, q.chunk)
      requires tr.trees[0] == tree && tr.los[0] == 0 && tr.his[0] == LIMIT
      requires Good(before, tree, slots, levels, 0, LIMIT) && Fits(tree, perNode) && Foot(tree) <= before.Keys
      requires more !! before.Keys && child == v0.sector && spare !in before && spare !in more
      requires Forked(before, store, tr.trees[l + 1], u0, v0, key0, slots, perNode, levels - (l + 1), tr.los[l + 1], tr.his[l + 1], more, q)
      modifies this`store
      ensures done ==> Grown(before, store, tr.trees[l], u, slots, perNode, levels - l, tr.los[l], tr.his[l], more, q)
      ensures !done ==>
        && v.sector == spare
        && Forked(before, store, tr.trees[l], u, v, key, slots, perNode, levels - l, tr.los[l], tr.his[l], more + {spare}, q)
      ensures step.sector in before && before[step.sector].Node? && (done <==> |before[step.sector].entries| < perNode)
      ensures !done ==> u.Index? && v.Index? && |u.kids| >= perNode / 2 && |v.kids| >= perNode / 2
    {
      hide Good, Fits, Foot, Contents, Apply, Grown, Forked, WithKey, Replaced;
      ghost var t, lo, hi, depth, i := tr.trees[l], tr.los[l], tr.his[l], levels - l, step.next - 1;
      assert Follows(path[l], tr.trees[l], tr.trees[l + 1], tr.los[l], tr.his[l], tr.los[l + 1], tr.his[l + 1]);
      TrailGood(before, path, tr, q.chunk, l, slots, perNode, levels);
      ForkedKids(before, store, t, i, u0, v0, key0, slots, perNode, depth, lo, hi, more, q);
      FitsKid(t, i, perNode);
      ghost var middle := store;
      var entries := store[step.sector].entries;
      var e := IndexEntry(key0, child);
      done, key := false, key0;
      if |entries| < perNode {
        store := store[step.sector := Node(InsertedAt(entries, step.next, e))];
        ForkAbsorbed(before, middle, store, t, i, u0, v0, key0, slots, perNode, depth, lo, hi, more, q);
        u, v := Index(t.sector, WithKey(t.keys, i, key0), Replaced(t.kids, i, [u0, v0])), v0;
        done := true;
        return;
      }
      var half := |entries| / 2;
      key := entries[half].key;
      var left, right := SplitEntries(entries, half, step.next, e);
      store := store[step.sector := Node(left)][spare := Node(right)];
      ghost var h := if step.next > half then half else half + 1;
      ghost var all := InsertedAt(entries, step.next, e);
      ForkPassed(before, middle, store, t, i, u0, v0, key0, all, h, spare, slots, perNode, depth, lo, hi, more, q);
      ghost var keys, kids := WithKey(t.keys, i, key0), Replaced(t.kids, i, [u0, v0]);
      u, v := Index(t.sector, keys[..h], kids[..h]), Index(spare, keys[h..], kids[h..]);
    }

    /** Puts a new root over the two halves of the old one. */
    method NewRoot(q: Request, key: nat, child: nat, spare: nat, ghost before: Store, ghost u: Tree, ghost v: Tree, ghost more: set<nat>)
      requires levels >= 1 && perNode >= 2 && slots >= 128 && root == tree.sector && child == v.sector
      requires Forked(before, store, tree, u, v, key, slots, perNode, levels, 0, LIMIT, more, q)
      requires Foot(tree) <= before.Keys && spare !in before && spare !in more
      modifies this
      ensures Valid() && Contents(tree) == Apply(old(Contents(tree)), q) && levels == old(levels) + 1
      ensures Foot(tree) == old(Foot(tree)) + more + {spare} && store.Keys == before.Keys + more + {spare}
      ensures Agree(before, store, before.Keys - old(Foot(tree)))
    {
      hide Apply;
      ghost var middle := store;
      store := store[spare := Node([IndexEntry(0, root), IndexEntry(key, child)])];
      RootGood(middle, store, u, v, key, spare, slots, perNode, levels);
      root, levels := spare, levels + 1;
      tree := Index(spare, [0, key], [u, v]);
    }

    /** Puts the new child of the leaf's parent into the index, splitting full blocks on the way up. */
    method Climb(q: Request, sectors: seq<nat>, path: seq<Step>, key0: nat, ghost before: Store, ghost tr: Trail, ghost u0: Tree, ghost v0: Tree)
        returns (used: nat)
      requires |path| == levels >= 1 && perNode >= 2 && slots >= 128 && OnTrail(path, tr, q.chunk)
      requires tr.trees[0] == tree && tr.los[0] == 0 && tr.his[0] == LIMIT && root == tree.sector
      requires Good(before, tree, slots, levels, 0, LIMIT) && Fits(tree, perNode) && Foot(tree) <= before.Keys
      requires |sectors| >= levels + 2 && v0.sector == sectors[0]
      requires Led(before, path, tr.trees[levels].sector, q.chunk) && path[0].sector == root
      requires (forall i :: 0 <= i < |sectors| ==> sectors[i] !in before)
      requires forall i, j :: 0 <= i < j < |sectors| ==> sectors[i] != sectors[j]
      requires Forked(before, store, tr.trees[levels], u0, v0, key0, slots, perNode, 0, tr.los[levels], tr.his[levels], Taken(sectors, 1), q)
      modifies this
      ensures Valid() && Contents(tree) == Apply(old(Contents(tree)), q)
      ensures var n := Overfull(before, old(root), q.chunk, old(levels), perNode);
        used == Needed(n, old(levels)) <= |sectors| && levels == old(levels) + if n == old(levels) then 1 else 0
      ensures Foot(tree) == old(Foot(tree)) + Taken(sectors, used) && store.Keys == before.Keys + Taken(sectors, used)
      ensures Agree(before, store, before.Keys - old(Foot(tree)))
    {
      hide Good, Fits, Foot, Contents, Apply, Grown, Forked, Follows, Led, Overfull, FullFrom, Taken, Agree;
      ghost var leaf := tr.trees[levels].sector;
      var l: nat, key := levels, key0;
      used := 1;
      FullEnd(before, path, perNode);
      ghost var u, v := u0, v0;
      while l > 0
        invariant root == tree.sector && tree == old(tree) && levels == old(levels)
        invariant l <= levels && used == 1 + levels - l && v.sector == sectors[used - 1] && FullFrom(before, path, l, perNode)
        invariant Forked(before, store, tr.trees[l], u, v, key, slots, perNode, levels - l, tr.los[l], tr.his[l], Taken(sectors, used), q)
      {
        l := l - 1;
        var done;
        TakenApart(sectors, used, before);
        done, key, u, v := ClimbOne(q, path[l], key, sectors[used - 1], sectors[used], before, path, tr, l, u, v, Taken(sectors, used));
        if done {
          ghost var r := GraftUp(before, store, path, tr, l, u, slots, perNode, levels, Taken(sectors, used), q);
          GrownMeans(before, store, tree, r, slots, perNode, levels, 0, LIMIT, Taken(sectors, used), q);
          OverfullTo(before, path, leaf, q.chunk, l, 0, perNode);
          tree := r;
          return;
        }
        FullMore(before, path, l, perNode);
        TakenNext(sectors, used);
        used := used + 1;
      }
      TakenApart(sectors, used, before);
      AllOverfull(before, path, leaf, q.chunk, 0, perNode);
      NewRoot(q, key, sectors[used - 1], sectors[used], before, u, v, Taken(sectors, used));
      TakenNext(sectors, used);
      used := used + 1;
    }

    /** Records a new version of a chunk. A full leaf is split, and so is every full index block above
        it; if the root is split, a new root is put over the halves. Afterwards the tree records
        exactly what it did, with that one version added. */
    method AddException(q: Request, sectors: seq<nat>) returns (used: nat)
      requires Valid() && q.chunk < LIMIT && Bounded(Contents(tree))
      requires Unused(sectors) && |sectors| >= levels + 2
      modifies this
      ensures Valid() && Contents(tree) == Apply(old(Contents(tree)), q)
      ensures levels in {old(levels), old(levels) + 1} && used <= |sectors|
      ensures var n, leaf := Overfull(old(store), old(root), q.chunk, old(levels), perNode), Reach(old(store), old(root), q.chunk, old(levels));
        && leaf in old(store) && old(store)[leaf].LeafBlock? && old(store)[leaf].image.Valid()
        && var image := old(store)[leaf].image;
        if image.Free() < (if Present(image.Entries(), q.chunk) then 2 else 3)
        then used == Needed(n, old(levels)) && levels == old(levels) + (if n == old(levels) then 1 else 0)
        else used == 0 && levels == old(levels)
      ensures Foot(tree) == old(Foot(tree)) + Taken(sectors, used) && store.Keys == old(store).Keys + Taken(sectors, used)
      ensures Agree(old(store), store, old(store).Keys - old(Foot(tree)))
    {
      hide Good, Fits, Foot, Contents, Apply, Grown, Forked, Bounded, Follows, Sorted, Within, Taken, PackedLeaf.Image.Valid, PackedLeaf.Image.Entries;
      var path, sector, tr := Probe(q.chunk);
      ghost var before, t, lo, hi := store, tr.trees[levels], tr.los[levels], tr.his[levels];
      FootHeldGood(store, tree, slots, levels, 0, LIMIT);
      LeafFacts(store, t, slots, lo, hi);
      TrailBounded(store, path, tr, q.chunk, levels);
      LeafContents(t);
      var full, leaf := EditLeaf(q, store[sector].image, slots, t.es);
      if full {
        var key, u, v := SplitLeaf(q, sector, sectors[0], leaf, t, lo, hi);
        TakenOne(sectors);
        used := Climb(q, sectors, path, key, before, tr, u, v);
      } else {
        WriteLeaf(q, sector, leaf, path, tr);
        used := 0;
        TakenNone(sectors);
      }
    }

    /** Writes back a leaf that had room. */
    method WriteLeaf(q: Request, sector: nat, leaf: PackedLeaf.Leaf, ghost path: seq<Step>, ghost tr: Trail)
      requires Valid() && |path| == levels && OnTrail(path, tr, q.chunk)
      requires tr.trees[0] == tree && tr.los[0] == 0 && tr.his[0] == LIMIT
      requires var t := tr.trees[levels];
        && t.Leaf? && sector == t.sector && Good(store, t, slots, 0, tr.los[levels], tr.his[levels])
        && leaf.Valid() && leaf.Entries() == Apply(t.es, q) && leaf.exc.Length == slots
      modifies this
      ensures Valid() && levels == old(levels) && Contents(tree) == Apply(old(Contents(tree)), q)
      ensures Foot(tree) == old(Foot(tree)) && store.Keys == old(store).Keys
      ensures Agree(old(store), store, old(store).Keys - old(Foot(tree)))
    {
      hide Good, Fits, Foot, Contents, Apply, Grown, Follows;
      ghost var before, t := store, tr.trees[levels];
      var image := leaf.Save();
      store := store[sector := LeafBlock(image)];
      LeafGrown(before, store, t, image, slots, perNode, tr.los[levels], tr.his[levels], q);
      ghost var r := GraftUp(before, store, path, tr, levels, Tree.Leaf(sector, Apply(t.es, q)), slots, perNode, levels, {}, q);
      GrownMeans(before, store, tree, r, slots, perNode, levels, 0, LIMIT, {}, q);
      tree := r;
    }
  }

  /** Tries to record the version in a leaf as it stands. */
  method EditLeaf(q: Request, image: PackedLeaf.Image, slots: nat, ghost es: Entries) returns (full: bool, leaf: PackedLeaf.Leaf)
    requires LeafHeld(LeafBlock(image), es, slots) && Sorted(es)
    ensures fresh(leaf) && fresh(leaf.dir) && fresh(leaf.exc) && leaf.Valid() && leaf.exc.Length == slots
    ensures full ==> leaf.Entries() == es && leaf.View().Free() < 3
    ensures !full ==> leaf.Entries() == Apply(es, q)
    ensures full <==> image.Free() < if Present(image.Entries(), q.chunk) then 2 else 3
  {
    leaf := new PackedLeaf.Leaf.Load(image);
    full := leaf.AddException(q.chunk, q.address, q.writer, q.active);
  }

  lemma TakenNone(sectors: seq<nat>)
    ensures Taken(sectors, 0) == {}
  {
  }

  lemma TakenOne(sectors: seq<nat>)
    requires |sectors| > 0
    ensures Taken(sectors, 1) == {sectors[0]}
  {
    assert sectors[..1] == [sectors[0]];
  }

  lemma LeafContents(t: Tree)
    requires t.Leaf?
    ensures Contents(t) == t.es
  {
  }

  lemma BoundedKid(t: Tree, i: nat)
    requires t.Index? && i < |t.kids| && Bounded(Contents(t))
    ensures Bounded(Contents(t.kids[i]))
  {
    AroundKid(t.kids, i);
    var pre, mid, post := AllContents(t.kids[..i]), Contents(t.kids[i]), AllContents(t.kids[i + 1..]);
    forall k | 0 <= k < |mid|
      ensures 1 <= |mid[k].list| <= 64
    {
      assert (pre + mid + post)[|pre| + k] == mid[k];
    }
  }

  lemma {:induction false} TrailBounded(store: Store, path: seq<Step>, tr: Trail, chunk: nat, l: nat)
    requires OnTrail(path, tr, chunk) && l <= |path| && Bounded(Contents(tr.trees[0]))
    ensures Bounded(Contents(tr.trees[l]))
  {
    hide Bounded, Contents;
    if l > 0 {
      TrailBounded(store, path, tr, chunk, l - 1);
      assert Follows(path[l - 1], tr.trees[l - 1], tr.trees[l - 1 + 1], tr.los[l - 1], tr.his[l - 1], tr.los[l - 1 + 1], tr.his[l - 1 + 1]);
      BoundedKid(tr.trees[l - 1], path[l - 1].next - 1);
    }
  }

  /** Splits a full leaf into itself and a new one and records the new version where it belongs. There
      is always room for it. */
  method DivideLeaf(q: Request, leaf: PackedLeaf.Leaf, slots: nat, ghost es: Entries, ghost lo: nat, ghost hi: nat)
      returns (key: nat, child: PackedLeaf.Leaf)
    requires leaf.Valid() && leaf.Entries() == es && leaf.exc.Length == slots && leaf.View().Free() < 3
    requires Bounded(es) && slots >= 128 && Sorted(es) && Within(es, lo, hi)
    modifies leaf, leaf.dir, leaf.exc
    ensures fresh(child) && fresh(child.dir) && fresh(child.exc)
    ensures leaf.Valid() && child.Valid() && leaf.exc.Length == child.exc.Length == slots
    ensures var n := (|es| + 1) / 2;
      && 0 < n < |es| && key == es[n].chunk
      && leaf.Entries() == (if q.chunk < key then Apply(es[..n], q) else es[..n])
      && child.Entries() == (if q.chunk < key then es[n..] else Apply(es[n..], q))
  {
    hide Bounded, PackedLeaf.Image.Valid, PackedLeaf.Image.Entries, Payload;
    ghost var n := (|es| + 1) / 2;
    DivideRoom(leaf.View(), n, slots);
    CutSorted(es, n, lo, hi);
    child := new PackedLeaf.Leaf(slots);
    key := leaf.SplitInto(child);
    PackedLeaf.FreeIsRest(leaf.View());
    PackedLeaf.FreeIsRest(child.View());
    var full;
    if q.chunk < key {
      full := leaf.AddException(q.chunk, q.address, q.writer, q.active);
    } else {
      full := child.AddException(q.chunk, q.address, q.writer, q.active);
    }
    assert !full;
  }

  lemma DivideRoom(a: PackedLeaf.Image, n: nat, slots: nat)
    requires a.Valid() && |a.exc| == slots >= 128 && a.Free() < 3 && Bounded(a.Entries())
    requires n == (|a.Entries()| + 1) / 2
    ensures 0 < n < |a.Entries()|
    ensures Payload(a.Entries()[..n]) <= 2 * slots - 7 && Payload(a.Entries()[n..]) <= 2 * slots - 7
  {
    hide Bounded, PackedLeaf.Image.Valid, PackedLeaf.Image.Entries, Payload;
    PackedLeaf.FreeIsRest(a);
    if |a.Entries()| <= 1 {
      ShortLeafFits(a.Entries());
    }
    HalfHasRoom(a.Entries(), n, slots);
  }

  /** The entries of a full block, with one more, shared out between it and a new block. */
  method SplitEntries(entries: seq<IndexEntry>, half: nat, next: nat, e: IndexEntry) returns (left: seq<IndexEntry>, right: seq<IndexEntry>)
    requires half < |entries| && next <= |entries|
    ensures var all, h := InsertedAt(entries, next, e), if next > half then half else half + 1;
      left == all[..h] && right == all[h..] && all[h] == entries[half]
  {
    left, right := entries[..half], entries[half..];
    if next > half {
      right := InsertedAt(right, next - half, e);
    } else {
      left := InsertedAt(left, next, e);
    }
  }

  lemma RootGood(a: Store, b: Store, u: Tree, v: Tree, key: nat, s: nat, slots: nat, n: nat, depth: nat)
    requires Good(a, u, slots, depth, 0, key) && Good(a, v, slots, depth, key, LIMIT) && Foot(u) !! Foot(v)
    requires Fits(u, n) && Fits(v, n) && n >= 2 && (v.Index? ==> FirstKey(v) == key)
    requires b == a[s := Node([IndexEntry(0, u.sector), IndexEntry(key, v.sector)])] && s !in Foot(u) + Foot(v)
    ensures var t := Index(s, [0, key], [u, v]);
      && Good(b, t, slots, depth + 1, 0, LIMIT) && Fits(t, n)
      && Contents(t) == Contents(u) + Contents(v) && Foot(t) == Foot(u) + Foot(v) + {s}
  {
    HeldFrame(a, b, u, slots);
    HeldFrame(a, b, v, slots);
    PairOfKids(b, u, v, slots);
    var t := Index(s, [0, key], [u, v]);
    assert t.kids[0] == u && t.kids[1] == v;
    MakeOrdered(t, depth + 1, 0, LIMIT);
  }

  /** The first `n` sectors handed out. */
  ghost function Taken(sectors: seq<nat>, n: nat): set<nat>
    requires n <= |sectors|
  {
    set s | s in sectors[..n]
  }

  lemma TakenApart(sectors: seq<nat>, n: nat, before: Store)
    requires n < |sectors| && (forall i :: 0 <= i < |sectors| ==> sectors[i] !in before)
    requires forall i, j :: 0 <= i < j < |sectors| ==> sectors[i] != sectors[j]
    ensures Taken(sectors, n) !! before.Keys && sectors[n] !in Taken(sectors, n)
  {
  }

  lemma TakenNext(sectors: seq<nat>, n: nat)
    requires n < |sectors|
    ensures Taken(sectors, n + 1) == Taken(sectors, n) + {sectors[n]}
  {
    assert sectors[..n + 1] == sectors[..n] + [sectors[n]];
  }

  lemma Applied(es: Entries, q: Request)
    ensures Apply(es, q) == WithException(es, q.chunk, q.address, q.writer, q.active)
  {
  }

  lemma GrownMeans(a: Store, b: Store, t: Tree, u: Tree, slots: nat, n: nat, depth: nat, lo: nat, hi: nat, more: set<nat>, q: Request)
    requires Grown(a, b, t, u, slots, n, depth, lo, hi, more, q)
    ensures Good(b, u, slots, depth, lo, hi) && Fits(u, n) && u.sector == t.sector
    ensures Foot(u) == Foot(t) + more && Contents(u) == Apply(Contents(t), q)
    ensures Agree(a, b, a.Keys - Foot(t)) && b.Keys == a.Keys + more
  {
  }

  lemma FootHeldGood(store: Store, t: Tree, slots: nat, depth: nat, lo: nat, hi: nat)
    requires Good(store, t, slots, depth, lo, hi)
    ensures Foot(t) <= store.Keys
  {
    FootHeld(store, t, slots);
  }

  lemma SeedGood(store: Store, t: Tree, leaf: nat, slots: nat, n: nat)
    requires t == Index(t.sector, [0], [Tree.Leaf(leaf, [])]) && t.sector != leaf && n >= 1
    requires leaf in store && LeafHeld(store[leaf], [], slots) && t.sector in store && store[t.sector] == Node([IndexEntry(0, leaf)])
    ensures Good(store, t, slots, 1, 0, LIMIT) && Fits(t, n) && Foot(t) == {leaf, t.sector} && Contents(t) == []
  {
    var kid := t.kids[0];
    SingleKid(store, kid, slots);
    assert Ordered(kid, 0, 0, LIMIT) && Fits(kid, n);
  }

  lemma LeafAtDepthZero(store: Store, t: Tree, slots: nat, lo: nat, hi: nat)
    requires Good(store, t, slots, 0, lo, hi)
    ensures t.Leaf?
  {
  }
}
