/** Removing snapshots from the whole tree: an in-order walk over the leaves that thins each one,
    merges it into the one before it when it fits, and merges index blocks the same way. */
module DeleteWalk {
  import opened TreeSpec
  import opened ExceptionTree

  // Replacing a run of children

  ghost function Spliced(kids: seq<Tree>, i: nat, k: nat, mid: seq<Tree>): seq<Tree>
    requires i <= k <= |kids|
  {
    kids[..i] + mid + kids[k..]
  }

  lemma AroundRun(kids: seq<Tree>, i: nat, k: nat, mid: seq<Tree>)
    requires i <= k <= |kids|
    ensures var r, pre, post := Spliced(kids, i, k, mid), kids[..i], kids[k..];
      && AllContents(r) == AllContents(pre) + AllContents(mid) + AllContents(post)
      && AllFoot(r) == AllFoot(pre) + AllFoot(mid) + AllFoot(post)
      && (AllDistinct(r) <==>
            && AllDistinct(pre) && AllDistinct(mid) && AllDistinct(post)
            && AllFoot(pre) !! AllFoot(mid) && (AllFoot(pre) + AllFoot(mid)) !! AllFoot(post))
  {
    var r, pre, post := Spliced(kids, i, k, mid), kids[..i], kids[k..];
    AllSplit(r, i);
    assert r[..i] == pre && r[i..] == mid + post;
    AllSplit(mid + post, |mid|);
    assert (mid + post)[..|mid|] == mid && (mid + post)[|mid|..] == post;
    assert AllContents(pre) + (AllContents(mid) + AllContents(post)) == AllContents(pre) + AllContents(mid) + AllContents(post);
  }

  lemma SplicedSelf(kids: seq<Tree>, i: nat, k: nat)
    requires i <= k <= |kids|
    ensures Spliced(kids, i, k, kids[i..k]) == kids
  {
  }

  lemma SplicedHeld(a: Store, b: Store, kids: seq<Tree>, i: nat, k: nat, mid: seq<Tree>, slots: nat)
    requires i <= k <= |kids| && AllDistinct(kids) && AllHeld(a, kids, slots) && AllHeld(b, mid, slots)
    requires Agree(a, b, AllFoot(kids) - AllFoot(kids[i..k]))
    ensures AllHeld(b, Spliced(kids, i, k, mid), slots)
  {
    hide AllDistinct, AllFoot, AllHeld;
    var r, pre, post := Spliced(kids, i, k, mid), kids[..i], kids[k..];
    SplicedSelf(kids, i, k);
    AroundRun(kids, i, k, kids[i..k]);
    AllHeldSplit(a, kids, i, slots);
    AllHeldSplit(a, kids, k, slots);
    AllHeldFrame(a, b, pre, slots);
    AllHeldFrame(a, b, post, slots);
    AllHeldSplit(b, r, i, slots);
    assert r[..i] == pre && r[i..] == mid + post;
    AllHeldSplit(b, mid + post, |mid|, slots);
    assert (mid + post)[..|mid|] == mid && (mid + post)[|mid|..] == post;
  }

  /** A run of good children replaced by good children that use no other blocks. */
  lemma SplicedGood(a: Store, b: Store, keys: seq<nat>, kids: seq<Tree>, i: nat, k: nat, keys': seq<nat>, mid: seq<Tree>, slots: nat, depth: nat, lo: nat, hi: nat)
    requires i <= k <= |kids| && KidsGood(a, keys, kids, slots, depth, lo, hi)
    requires AllHeld(b, mid, slots) && AllDistinct(mid) && AllFoot(mid) <= AllFoot(kids[i..k])
    requires Agree(a, b, AllFoot(kids) - AllFoot(kids[i..k]))
    requires Ordered(Index(0, keys', Spliced(kids, i, k, mid)), depth, lo, hi)
    ensures KidsGood(b, keys', Spliced(kids, i, k, mid), slots, depth, lo, hi)
    ensures AllFoot(Spliced(kids, i, k, mid)) == AllFoot(kids) - (AllFoot(kids[i..k]) - AllFoot(mid))
    ensures AllContents(kids) == AllContents(kids[..i]) + AllContents(kids[i..k]) + AllContents(kids[k..])
    ensures AllContents(Spliced(kids, i, k, mid)) == AllContents(kids[..i]) + AllContents(mid) + AllContents(kids[k..])
  {
    hide AllDistinct, AllFoot, AllHeld, Ordered, AllContents;
    SplicedSelf(kids, i, k);
    AroundRun(kids, i, k, kids[i..k]);
    AroundRun(kids, i, k, mid);
    SplicedHeld(a, b, kids, i, k, mid, slots);
  }

  // Order

  lemma {:induction false} ExtendHigh(t: Tree, depth: nat, lo: nat, hi: nat, hi': nat)
    requires Ordered(t, depth, lo, hi) && hi <= hi'
    ensures Ordered(t, depth, lo, hi')
    decreases t
  {
    if t.Index? {
      hide Ordered;
      var n := |t.kids|;
      IndexOrdered(t, depth, lo, hi);
      forall i | 0 <= i < n
        ensures Ordered(t.kids[i], depth - 1, Low(t.keys, i, lo), High(t.keys, i, hi'))
        ensures i >= 1 && t.kids[i].Index? ==> FirstKey(t.kids[i]) == t.keys[i]
      {
        KidOrdered(t, i, depth, lo, hi);
        if i + 1 == n {
          ExtendHigh(t.kids[i], depth - 1, Low(t.keys, i, lo), hi, hi');
        }
      }
      MakeOrdered(t, depth, lo, hi');
    }
  }

  lemma IndexOrdered(t: Tree, depth: nat, lo: nat, hi: nat)
    requires t.Index? && Ordered(t, depth, lo, hi)
    ensures depth > 0 && lo < hi && 1 <= |t.kids| == |t.keys|
  {
  }

  function Dropped<T>(s: seq<T>, j: nat): seq<T>
    requires j < |s|
  {
    s[..j] + s[j + 1..]
  }

  /** Child `j` joined to the one before it. */
  lemma JoinOrdered(keys: seq<nat>, kids: seq<Tree>, j: nat, m: Tree, depth: nat, lo: nat, hi: nat)
    requires Ordered(Index(0, keys, kids), depth, lo, hi) && 1 <= j < |kids| == |keys|
    requires Ordered(m, depth - 1, Low(keys, j - 1, lo), High(keys, j, hi))
    requires m.Index? == kids[j - 1].Index? && FirstKey(m) == FirstKey(kids[j - 1])
    ensures Ordered(Index(0, Dropped(keys, j), Spliced(kids, j - 1, j + 1, [m])), depth, lo, hi)
  {
    hide Ordered;
    var t, t' := Index(0, keys, kids), Index(0, Dropped(keys, j), Spliced(kids, j - 1, j + 1, [m]));
    KidOrdered(t, j, depth, lo, hi);
    assert |t'.kids| == |t'.keys| == |kids| - 1;
    forall i | 0 <= i < |t'.kids|
      ensures Ordered(t'.kids[i], depth - 1, Low(t'.keys, i, lo), High(t'.keys, i, hi))
      ensures i >= 1 && t'.kids[i].Index? ==> FirstKey(t'.kids[i]) == t'.keys[i]
    {
      KidOrdered(t, if i < j then i else i + 1, depth, lo, hi);
      assert t'.kids[i] == if i < j - 1 then kids[i] else if i == j - 1 then m else kids[i + 1];
    }
    MakeOrdered(t', depth, lo, hi);
  }

  /** The boundary between two neighbours moved to `key`. */
  lemma ShiftOrdered(keys: seq<nat>, kids: seq<Tree>, j: nat, key: nat, m: Tree, m': Tree, depth: nat, lo: nat, hi: nat)
    requires Ordered(Index(0, keys, kids), depth, lo, hi) && 1 <= j < |kids| == |keys|
    requires Ordered(m, depth - 1, Low(keys, j - 1, lo), key) && Ordered(m', depth - 1, key, High(keys, j, hi))
    requires m.Index? == kids[j - 1].Index? && FirstKey(m) == FirstKey(kids[j - 1]) && (m'.Index? ==> FirstKey(m') == key)
    ensures Ordered(Index(0, keys[j := key], Spliced(kids, j - 1, j + 1, [m, m'])), depth, lo, hi)
  {
    hide Ordered;
    var t, t' := Index(0, keys, kids), Index(0, keys[j := key], Spliced(kids, j - 1, j + 1, [m, m']));
    KidOrdered(t, j, depth, lo, hi);
    forall i | 0 <= i < |t'.kids|
      ensures Ordered(t'.kids[i], depth - 1, Low(t'.keys, i, lo), High(t'.keys, i, hi))
      ensures i >= 1 && t'.kids[i].Index? ==> FirstKey(t'.kids[i]) == t'.keys[i]
    {
      KidOrdered(t, i, depth, lo, hi);
      assert t'.kids[i] == if i == j - 1 then m else if i == j then m' else kids[i];
    }
    MakeOrdered(t', depth, lo, hi);
  }

  /** Two neighbours put end to end: the second's first key becomes the separator between them. */
  lemma ConcatOrdered(t: Tree, u: Tree, key: nat, depth: nat, lo: nat, hi: nat, s: nat)
    requires t.Index? && u.Index? && Ordered(t, depth, lo, key) && Ordered(u, depth, key, hi) && FirstKey(u) == key
    requires forall i :: 0 <= i < |u.kids| ==> u.kids[i].Leaf?
    ensures Ordered(Index(s, t.keys + u.keys, t.kids + u.kids), depth, lo, hi)
  {
    hide Ordered;
    IndexOrdered(t, depth, lo, key);
    IndexOrdered(u, depth, key, hi);
    var n, r := |t.kids|, Index(s, t.keys + u.keys, t.kids + u.kids);
    forall i | 0 <= i < |r.kids|
      ensures Ordered(r.kids[i], depth - 1, Low(r.keys, i, lo), High(r.keys, i, hi))
      ensures i >= 1 && r.kids[i].Index? ==> FirstKey(r.kids[i]) == r.keys[i]
    {
      if i < n {
        KidOrdered(t, i, depth, lo, key);
        assert r.kids[i] == t.kids[i] && r.keys[i] == t.keys[i];
        assert i + 1 < n ==> r.keys[i + 1] == t.keys[i + 1];
        assert i + 1 == n ==> r.keys[i + 1] == u.keys[0] == key;
      } else {
        KidOrdered(u, i - n, depth, key, hi);
        assert r.kids[i] == u.kids[i - n] && r.keys[i] == u.keys[i - n];
        assert i + 1 < |r.kids| ==> r.keys[i + 1] == u.keys[i - n + 1];
      }
    }
    MakeOrdered(r, depth, lo, hi);
  }

  // Edits within one index block over leaves

  ghost predicate LeafNode(t: Tree, n: nat) {
    t.Index? && |t.kids| <= n && forall i :: 0 <= i < |t.kids| ==> t.kids[i].Leaf?
  }

  lemma OneLeaf(store: Store, m: Tree, slots: nat)
    requires m.Leaf? && m.sector in store && LeafHeld(store[m.sector], m.es, slots)
    ensures AllHeld(store, [m], slots) && AllDistinct([m]) && AllFoot([m]) == {m.sector} && AllContents([m]) == m.es
  {
    SingleKid(store, m, slots);
  }

  lemma RunFoot(kids: seq<Tree>, i: nat, k: nat, j: nat)
    requires i <= j < k <= |kids|
    ensures Foot(kids[j]) <= AllFoot(kids[i..k]) <= AllFoot(kids)
  {
    SplicedSelf(kids, i, k);
    AroundRun(kids, i, k, kids[i..k]);
    AroundKid(kids[i..k], j - i);
    assert kids[i..k][j - i] == kids[j];
  }

  /** A leaf rewritten in place. */
  lemma LeafSet(a: Store, b: Store, t: Tree, j: nat, m: Tree, slots: nat, n: nat, lo: nat, hi: nat)
    requires LeafNode(t, n) && Good(a, t, slots, 1, lo, hi) && j < |t.kids| == |t.keys|
    requires m.Leaf? && m.sector == t.kids[j].sector && Ordered(m, 0, Low(t.keys, j, lo), High(t.keys, j, hi))
    requires m.sector in b && LeafHeld(b[m.sector], m.es, slots) && Agree(a, b, a.Keys - {m.sector})
    ensures var t' := Index(t.sector, t.keys, t.kids[j := m]);
      && LeafNode(t', n) && Good(b, t', slots, 1, lo, hi) && Foot(t') == Foot(t)
      && AllContents(t'.kids) == AllContents(t.kids[..j]) + m.es + AllContents(t.kids[j + 1..])
  {
    hide Ordered, Held, Distinct, AllHeld, AllDistinct, Foot, AllFoot, Contents, AllContents, Good;
    var t' := Index(t.sector, t.keys, t.kids[j := m]);
    NodeGood(a, t, slots, 1, lo, hi);
    OneLeaf(b, m, slots);
    OneOrdered(t.keys, t.kids, j, m, 1, lo, hi);
    RunFoot(t.kids, j, j + 1, j);
    LeafFoot(t.kids[j]);
    assert Spliced(t.kids, j, j + 1, [m]) == t.kids[j := m];
    SingleKid(a, t.kids[j], slots);
    assert t.kids[j..j + 1] == [t.kids[j]];
    SplicedGood(a, b, t.keys, t.kids, j, j + 1, t.keys, [m], slots, 1, lo, hi);
    IndexFoot(t);
    IndexFoot(t');
    MakeGood(b, t', slots, 1, lo, hi);
  }

  lemma LeafFoot(t: Tree)
    requires t.Leaf?
    ensures Foot(t) == {t.sector} && Contents(t) == t.es
  {
  }

  lemma NodeGood(a: Store, t: Tree, slots: nat, depth: nat, lo: nat, hi: nat)
    requires t.Index? && Good(a, t, slots, depth, lo, hi)
    ensures KidsGood(a, t.keys, t.kids, slots, depth, lo, hi) && t.sector !in AllFoot(t.kids)
    ensures t.sector in a && NodeHeld(a[t.sector], t.keys, t.kids)
    ensures Ordered(Index(0, t.keys, t.kids), depth, lo, hi) && Ordered(t, depth, lo, hi)
    ensures Foot(t) == {t.sector} + AllFoot(t.kids) && Foot(t) <= a.Keys
    ensures depth > 0 && lo < hi && 1 <= |t.kids| == |t.keys|
  {
    GoodKids(a, t, slots, depth, lo, hi);
    FootHeld(a, t, slots);
  }

  /** A leaf joined to the one before it in the same block, whose entry is then removed. */
  lemma LeafJoin(a: Store, b: Store, t: Tree, j: nat, m: Tree, slots: nat, n: nat, lo: nat, hi: nat)
    requires LeafNode(t, n) && Good(a, t, slots, 1, lo, hi) && 1 <= j < |t.kids| == |t.keys|
    requires m.Leaf? && m.sector == t.kids[j - 1].sector && m.es == t.kids[j - 1].es + t.kids[j].es
    requires m.sector in b && LeafHeld(b[m.sector], m.es, slots)
    requires t.sector in a && a[t.sector].Node? && j < |a[t.sector].entries|
    requires t.sector in b && b[t.sector] == Node(Dropped(a[t.sector].entries, j))
    requires Agree(a, b, a.Keys - {m.sector, t.sector, t.kids[j].sector})
    ensures var t' := Index(t.sector, Dropped(t.keys, j), Spliced(t.kids, j - 1, j + 1, [m]));
      && LeafNode(t', n) && Good(b, t', slots, 1, lo, hi) && Foot(t') == Foot(t) - {t.kids[j].sector} && FirstKey(t') == FirstKey(t)
      && AllContents(t'.kids) == AllContents(t.kids)
      && t'.kids[j..] == t.kids[j + 1..]
  {
    hide Ordered, Held, Distinct, AllHeld, AllDistinct, Foot, AllFoot, Contents, AllContents, Good;
    var t' := Index(t.sector, Dropped(t.keys, j), Spliced(t.kids, j - 1, j + 1, [m]));
    NodeGood(a, t, slots, 1, lo, hi);
    OneLeaf(b, m, slots);
    JoinedLeafOrdered(t, j, m, lo, hi);
    JoinOrdered(t.keys, t.kids, j, m, 1, lo, hi);
    RunFoot(t.kids, j - 1, j + 1, j - 1);
    RunFoot(t.kids, j - 1, j + 1, j);
    LeafFoot(t.kids[j - 1]);
    LeafFoot(t.kids[j]);
    SplicedGood(a, b, t.keys, t.kids, j - 1, j + 1, Dropped(t.keys, j), [m], slots, 1, lo, hi);
    TwoLeaves(t.kids, j);
    IndexFoot(t);
    IndexFoot(t');
    MakeGood(b, t', slots, 1, lo, hi);
  }

  lemma JoinedLeafOrdered(t: Tree, j: nat, m: Tree, lo: nat, hi: nat)
    requires t.Index? && Ordered(Index(0, t.keys, t.kids), 1, lo, hi) && 1 <= j < |t.kids| == |t.keys|
    requires t.kids[j - 1].Leaf? && t.kids[j].Leaf?
    requires m.Leaf? && m.es == t.kids[j - 1].es + t.kids[j].es
    ensures Ordered(m, 0, Low(t.keys, j - 1, lo), High(t.keys, j, hi))
  {
    KidOrdered(Index(0, t.keys, t.kids), j - 1, 1, lo, hi);
    KidOrdered(Index(0, t.keys, t.kids), j, 1, lo, hi);
    SortedConcat(t.kids[j - 1].es, t.kids[j].es, Low(t.keys, j - 1, lo), t.keys[j], High(t.keys, j, hi));
  }

  lemma TwoLeaves(kids: seq<Tree>, j: nat)
    requires 1 <= j < |kids| && kids[j - 1].Leaf? && kids[j].Leaf?
    ensures AllContents(kids[j - 1..j + 1]) == kids[j - 1].es + kids[j].es
    ensures AllFoot(kids[j - 1..j + 1]) == {kids[j - 1].sector, kids[j].sector}
    ensures AllDistinct(kids) ==> kids[j - 1].sector != kids[j].sector
  {
    AroundRun(kids, j - 1, j + 1, kids[j - 1..j + 1]);
    SplicedSelf(kids, j - 1, j + 1);
    PairOfKids(map[], kids[j - 1], kids[j], 0);
    assert kids[j - 1..j + 1] == [kids[j - 1], kids[j]];
  }

  /** The first leaf's entry removed from its block. */
  lemma LeafDropFirst(a: Store, b: Store, t: Tree, slots: nat, n: nat, lo: nat, hi: nat)
    requires LeafNode(t, n) && Good(a, t, slots, 1, lo, hi) && 2 <= |t.kids| == |t.keys|
    requires t.sector in a && a[t.sector].Node? && 0 < |a[t.sector].entries|
    requires t.sector in b && b[t.sector] == Node(Dropped(a[t.sector].entries, 0))
    requires Agree(a, b, AllFoot(t.kids[1..]))
    ensures var t' := Index(t.sector, t.keys[1..], t.kids[1..]);
      && LeafNode(t', n) && Good(b, t', slots, 1, t.keys[1], hi) && Foot(t') == Foot(t) - {t.kids[0].sector} && FirstKey(t') == t.keys[1]
      && lo < t.keys[1] < hi
  {
    hide Ordered, Held, Distinct, AllHeld, AllDistinct, Foot, AllFoot, Contents, AllContents, Good;
    var t' := Index(t.sector, t.keys[1..], t.kids[1..]);
    NodeGood(a, t, slots, 1, lo, hi);
    KidsSplit(a, t.keys, t.kids, 1, slots, 1, lo, hi);
    SingleKid(a, t.kids[0], slots);
    LeafFoot(t.kids[0]);
    assert t.kids[..1] == [t.kids[0]];
    KidOrdered(t, 0, 1, lo, hi);
    KidOrdered(t, 1, 1, lo, hi);
    TailOrdered(t, 1, 1, lo, hi);
    AllHeldFrame(a, b, t'.kids, slots);
    IndexFoot(t);
    IndexFoot(t');
    MakeGood(b, t', slots, 1, t.keys[1], hi);
  }

  /** The last leaf of a block grows over the boundary to `hi'`. */
  lemma LeafExtendLast(a: Store, b: Store, t: Tree, m: Tree, slots: nat, n: nat, lo: nat, hi: nat, hi': nat)
    requires LeafNode(t, n) && Good(a, t, slots, 1, lo, hi) && 1 <= |t.kids| == |t.keys| && hi <= hi'
    requires var j := |t.kids| - 1;
      && m.Leaf? && m.sector == t.kids[j].sector && Ordered(m, 0, Low(t.keys, j, lo), hi')
      && m.sector in b && LeafHeld(b[m.sector], m.es, slots) && Agree(a, b, a.Keys - {m.sector})
    ensures var j := |t.kids| - 1;
      var t' := Index(t.sector, t.keys, t.kids[j := m]);
      && LeafNode(t', n) && Good(b, t', slots, 1, lo, hi') && Foot(t') == Foot(t)
      && AllContents(t'.kids) == AllContents(t.kids[..j]) + m.es
  {
    var j := |t.kids| - 1;
    ExtendHigh(t, 1, lo, hi, hi');
    assert Good(a, t, slots, 1, lo, hi');
    hide Ordered, Good, Foot, AllContents;
    LeafSet(a, b, t, j, m, slots, n, lo, hi');
    assert t.kids[j + 1..] == [];
    NoContents();
  }

  /** A block appended to the one before it. */
  lemma NodesJoin(a: Store, b: Store, t: Tree, u: Tree, key: nat, slots: nat, n: nat, lo: nat, hi: nat)
    requires LeafNode(t, n) && LeafNode(u, n) && |t.kids| + |u.kids| <= n
    requires Good(a, t, slots, 1, lo, key) && Good(a, u, slots, 1, key, hi) && FirstKey(u) == key && Foot(t) !! Foot(u)
    requires t.sector in a && a[t.sector].Node? && u.sector in a && a[u.sector].Node?
    requires t.sector in b && b[t.sector] == Node(a[t.sector].entries + a[u.sector].entries)
    requires Agree(a, b, a.Keys - {t.sector, u.sector})
    ensures var t' := Index(t.sector, t.keys + u.keys, t.kids + u.kids);
      && LeafNode(t', n) && Good(b, t', slots, 1, lo, hi) && Foot(t') == Foot(t) + Foot(u) - {u.sector} && FirstKey(t') == FirstKey(t)
      && AllContents(t'.kids) == AllContents(t.kids) + AllContents(u.kids)
  {
    hide Ordered, Held, Distinct, AllHeld, AllDistinct, Foot, AllFoot, Contents, AllContents, Good;
    var t' := Index(t.sector, t.keys + u.keys, t.kids + u.kids);
    NodeGood(a, t, slots, 1, lo, key);
    NodeGood(a, u, slots, 1, key, hi);
    ConcatOrdered(t, u, key, 1, lo, hi, 0);
    AllHeldFrame(a, b, t.kids, slots);
    AllHeldFrame(a, b, u.kids, slots);
    AllSplit(t'.kids, |t.kids|);
    AllHeldSplit(b, t'.kids, |t.kids|, slots);
    assert t'.kids[..|t.kids|] == t.kids && t'.kids[|t.kids|..] == u.kids;
    IndexFoot(t');
    MakeGood(b, t', slots, 1, lo, hi);
  }
}
