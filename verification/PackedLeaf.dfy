/** A leaf block, edited in place. A 24-byte header is followed by an 8-byte map entry per chunk and
    a sentinel, growing up; the exceptions, 16 bytes each, grow down from the end of the block.
    A map entry's offset, here counted in exception slots from the start of the block, is where
    its chunk's exceptions begin; the next map entry's offset is where they end. */
module PackedLeaf {
  import opened Exceptions

  datatype MapEntry = MapEntry(offset: nat, rchunk: nat)

  /** The contents of a block of `|exc|` slots. Sizes are counted in map entries of 8 bytes, so the
      header takes three and an exception slot two. */
  datatype Image = Image(dir: seq<MapEntry>, exc: seq<Exception>, count: nat) {

    /** The offsets ascend to the sentinel, which ends the block, and the two regions are apart. */
    ghost predicate Valid() {
      && count < |dir|
      && dir[count].offset == |exc|
      && 3 + count + 1 <= 2 * dir[0].offset
      && forall i, j :: 0 <= i <= j <= count ==> dir[i].offset <= dir[j].offset
    }

    /** What the block records. */
    ghost function Entries(): (es: Entries)
      requires Valid()
      ensures |es| == count
    {
      seq(count, i requires 0 <= i < count && Valid() =>
        assert dir[0].offset <= dir[i].offset <= dir[i + 1].offset <= dir[count].offset;
        Entry(dir[i].rchunk, exc[dir[i].offset..dir[i + 1].offset]))
    }

    /** Room between the map and the exceptions. */
    ghost function Free(): nat
      requires Valid()
    {
      2 * dir[0].offset - (3 + count + 1)
    }
  }

  lemma Bounds(a: Image, i: nat)
    requires a.Valid() && i < a.count
    ensures a.dir[0].offset <= a.dir[i].offset <= a.dir[i + 1].offset <= |a.exc|
  {
    assert a.dir[i + 1].offset <= a.dir[a.count].offset;
  }

  lemma EntryAt(a: Image, i: nat)
    requires a.Valid() && i < a.count
    ensures a.dir[0].offset <= a.dir[i].offset <= a.dir[i + 1].offset <= |a.exc|
    ensures a.Entries()[i] == Entry(a.dir[i].rchunk, a.exc[a.dir[i].offset..a.dir[i + 1].offset])
  {
    Bounds(a, i);
  }

  lemma SliceMoved<T>(s: seq<T>, lo: nat, hi: nat, t: seq<T>, at: nat)
    requires lo <= hi <= |s| && at + (hi - lo) <= |t|
    requires forall p {:trigger t[p]} :: at <= p < at + (hi - lo) ==> t[p] == s[p - at + lo]
    ensures t[at..at + (hi - lo)] == s[lo..hi]
  {
  }

  /** The same bounds and exceptions make the same entry. */
  lemma EntryMatches(a: Image, i: nat, b: Image, j: nat, top: nat)
    requires a.Valid() && b.Valid() && i < a.count && j < b.count && |a.exc| == |b.exc|
    requires b.dir[j] == a.dir[i] && b.dir[j + 1].offset == a.dir[i + 1].offset
    requires top <= a.dir[i].offset && top <= |a.exc| && b.exc[top..] == a.exc[top..]
    ensures b.Entries()[j] == a.Entries()[i]
  {
    hide Image.Entries;
    EntryAt(a, i);
    EntryAt(b, j);
    var lo, hi := a.dir[i].offset, a.dir[i + 1].offset;
    SliceMoved(a.exc[top..], lo - top, hi - top, a.exc, lo);
    SliceMoved(b.exc[top..], lo - top, hi - top, b.exc, lo);
  }

  /** `b` is `a` with a map entry for `chunk` inserted at `i`, its list ending where it begins. */
  ghost predicate OpenEdit(a: Image, b: Image, i: nat, chunk: nat)
    requires a.Valid() && i <= a.count
  {
    && |b.dir| == |a.dir| > b.count == a.count + 1 && b.exc == a.exc
    && forall k {:trigger b.dir[k]} :: 0 <= k <= b.count ==>
         b.dir[k] == if k < i then a.dir[k] else if k == i then MapEntry(a.dir[i].offset, chunk) else a.dir[k - 1]
  }

  lemma OpenedValid(a: Image, b: Image, i: nat, chunk: nat)
    requires a.Valid() && i <= a.count && a.Free() >= 1 && OpenEdit(a, b, i, chunk)
    ensures b.Valid() && b.Free() == a.Free() - 1
  {
    forall j, k | 0 <= j <= k <= b.count
      ensures b.dir[j].offset <= b.dir[k].offset
    {
      assert b.dir[j].offset == a.dir[if j <= i then j else j - 1].offset;
      assert b.dir[k].offset == a.dir[if k <= i then k else k - 1].offset;
    }
  }

  lemma OpenedAt(a: Image, b: Image, i: nat, chunk: nat, k: nat)
    requires a.Valid() && i <= a.count && b.Valid() && OpenEdit(a, b, i, chunk) && k < b.count
    ensures b.Entries()[k] == if k < i then a.Entries()[k] else if k == i then Entry(chunk, []) else a.Entries()[k - 1]
  {
    hide Image.Entries;
    if k == i {
      EntryAt(b, i);
    } else {
      EntryMatches(a, if k < i then k else k - 1, b, k, 0);
    }
  }

  /** Inserting a map entry opens an empty list. */
  lemma Opened(a: Image, b: Image, i: nat, chunk: nat)
    requires a.Valid() && i <= a.count && a.Free() >= 1 && OpenEdit(a, b, i, chunk)
    ensures b.Valid() && b.Free() == a.Free() - 1
    ensures b.Entries() == Inserted(a.Entries(), i, Entry(chunk, []))
  {
    OpenedValid(a, b, i, chunk);
    assert b.count == a.count + 1;
    hide OpenEdit, Image.Valid, Image.Entries, Inserted;
    var r := Inserted(a.Entries(), i, Entry(chunk, []));
    forall k | 0 <= k < b.count
      ensures b.Entries()[k] == r[k]
    {
      OpenedAt(a, b, i, chunk, k);
    }
    assert |r| == b.count;
  }

  /** `b` is `a` with the exceptions before list `i` moved down a slot, `e` in the slot freed, and
      the offsets of the moved lists adjusted. */
  ghost predicate PrependEdit(a: Image, b: Image, i: nat, e: Exception)
    requires a.Valid() && i < a.count && a.Free() >= 2
  {
    && |b.dir| == |a.dir| && |b.exc| == |a.exc| && b.count == a.count
    && (forall k {:trigger b.dir[k]} :: 0 <= k <= a.count ==>
          && b.dir[k].rchunk == a.dir[k].rchunk
          && b.dir[k].offset == if k <= i then a.dir[k].offset - 1 else a.dir[k].offset)
    && (forall p {:trigger b.exc[p]} :: a.dir[0].offset - 1 <= p < |a.exc| ==>
          b.exc[p] == if p < a.dir[i].offset - 1 then a.exc[p + 1]
                      else if p == a.dir[i].offset - 1 then e else a.exc[p])
  }

  lemma PrependedValid(a: Image, b: Image, i: nat, e: Exception)
    requires a.Valid() && i < a.count && a.Free() >= 2 && PrependEdit(a, b, i, e)
    ensures b.Valid() && b.Free() == a.Free() - 2
  {
  }

  lemma PrependedAt(a: Image, b: Image, i: nat, e: Exception, k: nat)
    requires a.Valid() && i < a.count && a.Free() >= 2 && PrependEdit(a, b, i, e) && b.Valid() && k < a.count
    ensures b.Entries()[k] == if k == i then Entry(a.dir[i].rchunk, [e] + a.Entries()[i].list) else a.Entries()[k]
  {
    hide Image.Entries;
    EntryAt(a, k);
    EntryAt(b, k);
    var lo, hi := a.dir[k].offset, a.dir[k + 1].offset;
    if k < i {
      assert hi <= a.dir[i].offset;
      SliceMoved(a.exc, lo, hi, b.exc, lo - 1);
    } else {
      assert k > i ==> a.dir[i + 1].offset <= lo;
      SliceMoved(a.exc, lo, hi, b.exc, lo);
      if k == i {
        assert b.exc[lo - 1..hi] == [b.exc[lo - 1]] + b.exc[lo..hi];
      }
    }
  }

  /** That prepends `e` to list `i` and changes nothing else. */
  lemma Prepended(a: Image, b: Image, i: nat, e: Exception)
    requires a.Valid() && i < a.count && a.Free() >= 2 && PrependEdit(a, b, i, e)
    ensures b.Valid() && b.Free() == a.Free() - 2
    ensures b.Entries() == a.Entries()[i := Entry(a.dir[i].rchunk, [e] + a.Entries()[i].list)]
  {
    PrependedValid(a, b, i, e);
    hide PrependEdit, Image.Valid, Image.Entries;
    forall k | 0 <= k < a.count
      ensures b.Entries()[k] == if k == i then Entry(a.dir[i].rchunk, [e] + a.Entries()[i].list) else a.Entries()[k]
    {
      PrependedAt(a, b, i, e, k);
    }
  }

  lemma SliceUpdated<T>(s: seq<T>, lo: nat, hi: nat, p: nat, x: T)
    requires lo <= hi <= |s| && p < |s|
    ensures s[p := x][lo..hi] == if lo <= p < hi then s[lo..hi][p - lo := x] else s[lo..hi]
  {
  }

  lemma RemaskedAt(a: Image, b: Image, i: nat, p: nat, share: Mask, j: nat)
    requires a.Valid() && i < a.count && a.dir[i].offset <= p < a.dir[i + 1].offset <= |a.exc| && j < a.count
    requires b == a.(exc := a.exc[p := a.exc[p].(share := share)]) && b.Valid()
    ensures p - a.dir[i].offset < |a.Entries()[i].list|
    ensures b.Entries()[j]
         == if j != i then a.Entries()[j]
            else var list, k := a.Entries()[i].list, p - a.dir[i].offset;
                 Entry(a.dir[i].rchunk, list[k := list[k].(share := share)])
  {
    assert j < i ==> a.dir[j + 1].offset <= a.dir[i].offset;
    assert j > i ==> a.dir[i + 1].offset <= a.dir[j].offset;
    hide Image.Entries, Image.Valid;
    EntryAt(a, i);
    EntryAt(a, j);
    EntryAt(b, j);
    var lo, hi := a.dir[j].offset, a.dir[j + 1].offset;
    SliceUpdated(a.exc, lo, hi, p, a.exc[p].(share := share));
  }

  /** Changing one exception's mask in place. */
  lemma Remasked(a: Image, b: Image, i: nat, p: nat, share: Mask)
    requires a.Valid() && i < a.count && a.dir[i].offset <= p < a.dir[i + 1].offset <= |a.exc|
    requires b == a.(exc := a.exc[p := a.exc[p].(share := share)])
    ensures b.Valid() && b.Free() == a.Free()
    ensures var list := a.Entries()[i].list;
      var k := p - a.dir[i].offset;
      k < |list| && b.Entries() == a.Entries()[i := Entry(a.dir[i].rchunk, list[k := list[k].(share := share)])]
  {
    hide Image.Entries;
    assert b.Valid();
    RemaskedAt(a, b, i, p, share, i);
    forall j | 0 <= j < a.count && j != i
      ensures b.Entries()[j] == a.Entries()[j]
    {
      RemaskedAt(a, b, i, p, share, j);
    }
  }

  /** The room left is what the recorded entries do not take. */
  lemma FreeIsRest(a: Image)
    requires a.Valid()
    ensures a.Free() == 2 * |a.exc| - 4 - Payload(a.Entries())
  {
    VersionsAre(a, 0);
    assert a.Entries()[0..] == a.Entries();
  }

  lemma {:induction false} VersionsAre(a: Image, i: nat)
    requires a.Valid() && i <= a.count
    ensures Versions(a.Entries()[i..]) == |a.exc| - a.dir[i].offset
    decreases a.count - i
  {
    if i < a.count {
      VersionsAre(a, i + 1);
      EntryAt(a, i);
      var es := a.Entries();
      assert es[i..][1..] == es[i + 1..] && es[i..][0] == es[i];
    }
  }

  /** `c` is `a` and then `b`: the exceptions of `a` moved down to make room for those of `b`, which
      keep their places, and the map of `b` copied over the sentinel of `a`. */
  ghost predicate Joined(a: Image, b: Image, c: Image)
    requires a.Valid() && b.Valid()
  {
    && |a.dir| == |b.dir| == |c.dir| && |a.exc| == |b.exc| == |c.exc| && c.count == a.count + b.count < |c.dir|
    && c.dir[c.count].offset == |c.exc|
    && DirJoined(a, b, c) && ExcJoined(a, b, c)
  }

  ghost predicate DirJoined(a: Image, b: Image, c: Image)
    requires a.Valid() && b.Valid() && |a.dir| == |b.dir| == |c.dir| && a.count + b.count == c.count < |c.dir|
  {
    var tail := |b.exc| - b.dir[0].offset;
    && (forall k {:trigger c.dir[k]} :: 0 <= k < a.count ==>
          c.dir[k].rchunk == a.dir[k].rchunk && c.dir[k].offset == a.dir[k].offset - tail)
    && (forall k {:trigger c.dir[k]} :: a.count <= k < c.count ==> c.dir[k] == b.dir[k - a.count])
  }

  ghost predicate ExcJoined(a: Image, b: Image, c: Image)
    requires a.Valid() && b.Valid() && |a.exc| == |b.exc| == |c.exc|
  {
    var tail := |b.exc| - b.dir[0].offset;
    forall p {:trigger c.exc[p]} :: 0 <= a.dir[0].offset - tail <= p < |c.exc| ==>
      c.exc[p] == if p < |c.exc| - tail then a.exc[p + tail] else b.exc[p]
  }

  lemma JoinedValid(a: Image, b: Image, c: Image)
    requires a.Valid() && b.Valid() && Joined(a, b, c)
    requires 3 + c.count + 1 <= 2 * (a.dir[0].offset - (|b.exc| - b.dir[0].offset))
    ensures c.Valid() && c.Free() == a.Free() - (b.count + 2 * (|b.exc| - b.dir[0].offset))
  {
    var tail := |b.exc| - b.dir[0].offset;
    assert a.count == 0 ==> a.dir[0].offset - tail == b.dir[0].offset;
    forall k | 0 <= k <= c.count
      ensures c.dir[k].offset == if k < a.count then a.dir[k].offset - tail else b.dir[k - a.count].offset
    {
    }
    forall i, j | 0 <= i <= j <= c.count
      ensures c.dir[i].offset <= c.dir[j].offset
    {
      if i < a.count {
        assert a.dir[i].offset <= a.dir[a.count].offset;
        if j >= a.count {
          assert b.dir[0].offset <= b.dir[j - a.count].offset;
        }
      }
    }
  }

  lemma JoinedAt(a: Image, b: Image, c: Image, k: nat)
    requires a.Valid() && b.Valid() && Joined(a, b, c) && c.Valid() && k < c.count
    requires a.dir[0].offset >= |b.exc| - b.dir[0].offset
    ensures c.Entries()[k] == if k < a.count then a.Entries()[k] else b.Entries()[k - a.count]
  {
    hide Image.Entries;
    var tail := |b.exc| - b.dir[0].offset;
    EntryAt(c, k);
    if k < a.count {
      EntryAt(a, k);
      var lo, hi := a.dir[k].offset, a.dir[k + 1].offset;
      assert c.dir[k + 1].offset == hi - tail;
      SliceMoved(a.exc, lo, hi, c.exc, lo - tail);
    } else {
      EntryAt(b, k - a.count);
      var lo, hi := b.dir[k - a.count].offset, b.dir[k - a.count + 1].offset;
      assert c.dir[k + 1].offset == hi;
      SliceMoved(b.exc, lo, hi, c.exc, lo);
    }
  }

  /** Joining two leaves concatenates what they record. */
  lemma JoinedEntries(a: Image, b: Image, c: Image)
    requires a.Valid() && b.Valid() && Joined(a, b, c) && c.Valid()
    requires a.dir[0].offset >= |b.exc| - b.dir[0].offset
    ensures c.Entries() == a.Entries() + b.Entries()
  {
    assert c.count == a.count + b.count;
    hide Joined, Image.Valid, Image.Entries;
    forall k | 0 <= k < c.count
      ensures c.Entries()[k] == (a.Entries() + b.Entries())[k]
    {
      JoinedAt(a, b, c, k);
    }
  }

  /** What the freespace test of a merge guarantees. */
  lemma MergeFits(a: Image, b: Image)
    requires a.Valid() && b.Valid() && |a.exc| == |b.exc| && 3 + |a.dir| == 2 * |a.exc|
    requires Payload(b.Entries()) <= a.Free()
    ensures b.dir[0].offset <= |b.exc| && a.dir[0].offset <= |a.exc| && a.count + b.count < |a.dir|
    ensures var tail := |b.exc| - b.dir[0].offset;
      && 3 + a.count + b.count + 1 <= 2 * (a.dir[0].offset - tail)
      && forall k :: 0 <= k <= a.count ==> tail <= a.dir[k].offset
    ensures b.dir[b.count].offset == |a.exc| == a.dir[a.count].offset && b.count < |b.dir|
  {
    FreeIsRest(b);
    assert a.dir[0].offset <= a.dir[a.count].offset && b.dir[0].offset <= b.dir[b.count].offset;
    forall k | 0 <= k <= a.count
      ensures a.dir[0].offset <= a.dir[k].offset
    {
    }
  }

  /** `s` with `n` elements at `dst` replaced by those of `t` at `src`. */
  function Pasted<T>(s: seq<T>, dst: nat, t: seq<T>, src: nat, n: nat): (r: seq<T>)
    requires dst + n <= |s| && src + n <= |t|
    ensures |r| == |s|
    ensures forall p {:trigger r[p]} :: 0 <= p < |s| ==> r[p] == if dst <= p < dst + n then t[p - dst + src] else s[p]
  {
    s[..dst] + t[src..src + n] + s[dst + n..]
  }

  /** Map entries up to and including `n` with `delta` added to their offsets. */
  function Shifted(dir: seq<MapEntry>, n: nat, delta: int): (r: seq<MapEntry>)
    requires n < |dir| && forall k :: 0 <= k <= n ==> 0 <= dir[k].offset + delta
    ensures |r| == |dir|
    ensures forall k {:trigger r[k]} :: 0 <= k < |dir| ==>
      r[k] == if k <= n then MapEntry(dir[k].offset + delta, dir[k].rchunk) else dir[k]
  {
    seq(|dir|, k requires 0 <= k < |dir| =>
      if k <= n then MapEntry(dir[k].offset + delta, dir[k].rchunk) else dir[k])
  }

  /** Copies within a block; the ranges may overlap. */
  method Move<T>(a: array<T>, dst: nat, src: nat, n: nat)
    requires dst + n <= a.Length && src + n <= a.Length
    modifies a
    ensures a[..] == Pasted(old(a[..]), dst, old(a[..]), src, n)
  {
    forall p | dst <= p < dst + n {
      a[p] := a[p - dst + src];
    }
  }

  /** Copies from another block. */
  method Copy<T>(a: array<T>, dst: nat, b: array<T>, src: nat, n: nat)
    requires a != b && dst + n <= a.Length && src + n <= b.Length
    modifies a
    ensures a[..] == Pasted(old(a[..]), dst, b[..], src, n)
  {
    forall p | dst <= p < dst + n {
      a[p] := b[p - dst + src];
    }
  }

  /** The block after the moves of a merge. */
  function Merged(a: Image, b: Image): Image
    requires a.count < |a.dir| && b.count < |b.dir| && |a.exc| == |b.exc| && a.count + b.count < |a.dir|
    requires b.dir[0].offset <= |b.exc| && a.dir[0].offset <= |a.exc|
    requires |b.exc| - b.dir[0].offset <= a.dir[0].offset
    requires forall k :: 0 <= k <= a.count ==> |b.exc| - b.dir[0].offset <= a.dir[k].offset
  {
    var length, first := |a.exc|, a.dir[0].offset;
    var tail := length - b.dir[0].offset;
    Image(MergedDir(a.dir, a.count, b.dir, b.count, tail), MergedExc(a.exc, first, b.exc, tail), a.count + b.count)
  }

  function MergedExc(s: seq<Exception>, first: nat, t: seq<Exception>, tail: nat): seq<Exception>
    requires tail <= first <= |s| == |t|
  {
    Pasted(Pasted(s, first - tail, s, first, |s| - first), |s| - tail, t, |s| - tail, tail)
  }

  function MergedDir(s: seq<MapEntry>, n: nat, t: seq<MapEntry>, m: nat, tail: nat): seq<MapEntry>
    requires n + m < |s| && m < |t| && forall k :: 0 <= k <= n ==> tail <= s[k].offset
  {
    Pasted(Shifted(s, n, 0 - tail), n, t, 0, m + 1)
  }

  lemma MergedJoins(a: Image, b: Image)
    requires a.Valid() && b.Valid() && |a.exc| == |b.exc| && |a.dir| == |b.dir| && a.count + b.count < |a.dir|
    requires b.dir[0].offset <= |b.exc| && a.dir[0].offset <= |a.exc|
    requires |b.exc| - b.dir[0].offset <= a.dir[0].offset
    requires forall k :: 0 <= k <= a.count ==> |b.exc| - b.dir[0].offset <= a.dir[k].offset
    ensures Joined(a, b, Merged(a, b))
  {
    hide Pasted, Shifted;
  }

  /** The two blocks after the moves of a split into `u`. */
  function SplitLower(c: Image, n: nat): Image
    requires n < c.count < |c.dir| && c.dir[0].offset <= c.dir[n].offset <= |c.exc|
  {
    var length, first, cut := |c.exc|, c.dir[0].offset, c.dir[n].offset;
    var exc := Pasted(c.exc, first + (length - cut), c.exc, first, cut - first);
    var dir := Shifted(c.dir, n, length - cut);
    Image(dir[n := dir[n].(rchunk := 0)], exc, n)
  }

  function SplitUpper(c: Image, u: Image, n: nat): Image
    requires n < c.count < |c.dir| && c.dir[n].offset <= |c.exc| == |u.exc| && |c.dir| == |u.dir|
  {
    var cut := c.dir[n].offset;
    Image(Pasted(u.dir, 0, c.dir, n, c.count - n + 1), Pasted(u.exc, cut, c.exc, cut, |c.exc| - cut), c.count - n)
  }

  lemma SplitLowerValid(c: Image, n: nat)
    requires c.Valid() && n < c.count && c.dir[0].offset <= c.dir[n].offset <= |c.exc|
    ensures SplitLower(c, n).Valid()
  {
    hide Pasted, Shifted;
  }

  lemma SplitUpperValid(c: Image, u: Image, n: nat)
    requires c.Valid() && n < c.count && c.dir[0].offset <= c.dir[n].offset <= |c.exc| == |u.exc| && |c.dir| == |u.dir|
    ensures SplitUpper(c, u, n).Valid()
  {
    hide Pasted, Shifted;
  }

  lemma SplitExcAt(c: Image, u: Image, n: nat, p: nat)
    requires n < c.count < |c.dir| && c.dir[0].offset <= c.dir[n].offset <= |c.exc| == |u.exc| && |c.dir| == |u.dir|
    requires c.dir[0].offset <= p < |c.exc|
    ensures var tail := |c.exc| - c.dir[n].offset;
      c.exc[p] == if p < |c.exc| - tail then SplitLower(c, n).exc[p + tail] else SplitUpper(c, u, n).exc[p]
  {
    hide Pasted, Shifted;
  }

  lemma SplitDirAt(c: Image, u: Image, n: nat, k: nat)
    requires n < c.count < |c.dir| && c.dir[0].offset <= c.dir[n].offset <= |c.exc| == |u.exc| && |c.dir| == |u.dir|
    requires k < c.count
    ensures var tail := |c.exc| - c.dir[n].offset;
      if k < n then SplitLower(c, n).dir[k] == MapEntry(c.dir[k].offset + tail, c.dir[k].rchunk)
      else SplitUpper(c, u, n).dir[k - n] == c.dir[k]
  {
    hide Pasted, Shifted;
  }

  lemma SplitEnds(c: Image, u: Image, n: nat)
    requires n < c.count < |c.dir| && c.dir[0].offset <= c.dir[n].offset <= |c.exc| == |u.exc| && |c.dir| == |u.dir|
    ensures SplitUpper(c, u, n).dir[0].offset == c.dir[n].offset
    ensures SplitLower(c, n).dir[0].offset == c.dir[0].offset + (|c.exc| - c.dir[n].offset)
    ensures var a, b := SplitLower(c, n), SplitUpper(c, u, n);
      |a.dir| == |b.dir| == |c.dir| && |a.exc| == |b.exc| == |c.exc| && a.count == n && b.count == c.count - n
  {
    hide Pasted, Shifted;
  }

  lemma SplitJoins(c: Image, u: Image, n: nat)
    requires c.Valid() && n < c.count && c.dir[0].offset <= c.dir[n].offset <= |c.exc| == |u.exc| && |c.dir| == |u.dir|
    requires SplitLower(c, n).Valid() && SplitUpper(c, u, n).Valid()
    requires c.dir[c.count].offset == |c.exc|
    ensures Joined(SplitLower(c, n), SplitUpper(c, u, n), c)
  {
    InRange(c);
    SplitEnds(c, u, n);
    hide SplitLower, SplitUpper, Image.Valid;
    var a, b := SplitLower(c, n), SplitUpper(c, u, n);
    JoinsFrom(a, b, c, n, u);
  }

  lemma JoinsFrom(a: Image, b: Image, c: Image, n: nat, u: Image)
    requires a.Valid() && b.Valid() && |a.dir| == |b.dir| == |c.dir| == |u.dir|
    requires |a.exc| == |b.exc| == |c.exc| == |u.exc| && a.count == n && b.count == c.count - n
    requires n < c.count < |c.dir| && c.dir[0].offset <= c.dir[n].offset <= |c.exc| == c.dir[c.count].offset
    requires b.dir[0].offset == c.dir[n].offset && a.dir[0].offset == c.dir[0].offset + (|c.exc| - c.dir[n].offset)
    requires a == SplitLower(c, n) && b == SplitUpper(c, u, n)
    ensures Joined(a, b, c)
  {
    hide SplitLower, SplitUpper, Image.Valid;
    var tail := |c.exc| - c.dir[n].offset;
    forall k | 0 <= k < n
      ensures c.dir[k].rchunk == a.dir[k].rchunk && c.dir[k].offset == a.dir[k].offset - tail
    {
      SplitDirAt(c, u, n, k);
    }
    forall k | n <= k < c.count
      ensures c.dir[k] == b.dir[k - n]
    {
      SplitDirAt(c, u, n, k);
    }
    forall p | c.dir[0].offset <= p < |c.exc|
      ensures c.exc[p] == if p < |c.exc| - tail then a.exc[p + tail] else b.exc[p]
    {
      SplitExcAt(c, u, n, p);
    }
  }

  /** The two halves of a split leaf join to the original. */
  lemma SplitHalves(c: Image, u: Image, n: nat)
    requires c.Valid() && n < c.count && c.dir[0].offset <= c.dir[n].offset <= |c.exc| == |u.exc| && |c.dir| == |u.dir|
    ensures var a, b := SplitLower(c, n), SplitUpper(c, u, n);
      && a.Valid() && b.Valid()
      && a.Entries() == c.Entries()[..n] && b.Entries() == c.Entries()[n..]
  {
    hide Pasted, Shifted, Image.Entries;
    var a, b := SplitLower(c, n), SplitUpper(c, u, n);
    SplitLowerValid(c, n);
    SplitUpperValid(c, u, n);
    SplitJoins(c, u, n);
    JoinedEntries(a, b, c);
  }

  lemma ConsValid(a: Image, b: Image)
    requires a.Valid() && b.count == a.count + 1 && |b.exc| == |a.exc|
    requires b.dir != [] && b.dir[1..] == a.dir && 3 + b.count + 1 <= 2 * b.dir[0].offset
    requires b.dir[0].offset <= a.dir[0].offset
    ensures b.Valid() && forall k {:trigger b.dir[k]} :: 0 < k < |b.dir| ==> b.dir[k] == a.dir[k - 1]
  {
    forall k | 0 < k < |b.dir|
      ensures b.dir[k] == a.dir[k - 1]
    {
    }
    forall i, j | 0 <= i <= j <= b.count
      ensures b.dir[i].offset <= b.dir[j].offset
    {
      if i == 0 && j > 0 {
        assert a.dir[0].offset <= a.dir[j - 1].offset;
      }
    }
  }

  /** The entries after the first are those of the shorter block. */
  lemma ConsTail(a: Image, b: Image)
    requires a.Valid() && b.Valid() && b.count == a.count + 1 && |b.exc| == |a.exc| && b.dir != [] && b.dir[1..] == a.dir
    requires a.dir[0].offset <= |a.exc| && b.exc[a.dir[0].offset..] == a.exc[a.dir[0].offset..]
    ensures forall k {:trigger b.Entries()[k]} :: 0 < k < b.count ==> b.Entries()[k] == a.Entries()[k - 1]
  {
    hide Image.Valid, Image.Entries;
    InRange(a);
    forall k | 0 < k < b.count
      ensures b.Entries()[k] == a.Entries()[k - 1]
    {
      Bounds(a, k - 1);
      assert b.dir[k] == b.dir[1..][k - 1] && b.dir[k + 1] == b.dir[1..][k];
      EntryMatches(a, k - 1, b, k, a.dir[0].offset);
    }
  }

  /** A map entry before the first records one more chunk. */
  lemma ConsEntry(a: Image, b: Image)
    requires a.Valid() && b.count == a.count + 1 && |b.exc| == |a.exc|
    requires b.dir != [] && b.dir[1..] == a.dir && 3 + b.count + 1 <= 2 * b.dir[0].offset
    requires b.dir[0].offset <= a.dir[0].offset <= |a.exc| && b.exc[a.dir[0].offset..] == a.exc[a.dir[0].offset..]
    ensures b.Valid()
    ensures b.Entries() == [Entry(b.dir[0].rchunk, b.exc[b.dir[0].offset..a.dir[0].offset])] + a.Entries()
  {
    hide Image.Valid, Image.Entries;
    ConsValid(a, b);
    EntryAt(b, 0);
    ConsTail(a, b);
    var first := Entry(b.dir[0].rchunk, b.exc[b.dir[0].offset..a.dir[0].offset]);
    assert b.Entries()[0] == first && b.dir[1] == a.dir[0];
  }

  lemma DropValid(a: Image, b: Image, i: nat)
    requires a.Valid() && i < a.count && a.dir[i].offset == a.dir[i + 1].offset
    requires b == Image(a.dir[..i] + a.dir[i + 1..], a.exc, a.count - 1)
    ensures b.Valid()
    ensures forall k {:trigger b.dir[k]} :: 0 <= k < |b.dir| ==> b.dir[k] == a.dir[if k < i then k else k + 1]
  {
    forall k | 0 <= k < |b.dir|
      ensures b.dir[k] == a.dir[if k < i then k else k + 1]
    {
    }
  }

  /** Dropping a map entry without exceptions drops its chunk. */
  lemma DropEntry(a: Image, b: Image, i: nat)
    requires a.Valid() && i < a.count && a.dir[i].offset == a.dir[i + 1].offset
    requires b == Image(a.dir[..i] + a.dir[i + 1..], a.exc, a.count - 1)
    ensures b.Valid() && a.Entries()[i].list == []
    ensures b.Entries() == a.Entries()[..i] + a.Entries()[i + 1..]
  {
    hide Image.Entries;
    DropValid(a, b, i);
    EntryAt(a, i);
    forall k | 0 <= k < b.count
      ensures b.Entries()[k] == a.Entries()[if k < i then k else k + 1]
    {
      EntryMatches(a, if k < i then k else k + 1, b, k, 0);
    }
    hide Image.Valid;
    DroppedAt(a.Entries(), b.Entries(), i);
  }

  lemma DroppedAt(s: Entries, t: Entries, i: nat)
    requires i < |s| == |t| + 1
    requires forall k {:trigger t[k]} :: 0 <= k < |t| ==> t[k] == s[if k < i then k else k + 1]
    ensures t == s[..i] + s[i + 1..]
  {
  }

  lemma SameValid(a: Image, b: Image)
    requires a.Valid() && b.exc == a.exc && b.count == a.count < |b.dir|
    requires b.dir[..a.count] == a.dir[..a.count] && b.dir[a.count].offset == a.dir[a.count].offset
    ensures b.Valid() && forall k :: 0 <= k <= a.count ==> b.dir[k].offset == a.dir[k].offset
    ensures forall k :: 0 <= k < a.count ==> b.dir[k] == a.dir[k]
  {
    forall k | 0 <= k < a.count
      ensures b.dir[k] == a.dir[k]
    {
      assert b.dir[..a.count][k] == a.dir[..a.count][k];
    }
  }

  /** Only the map up to the sentinel, and the sentinel's offset, matter. */
  lemma SameEntries(a: Image, b: Image)
    requires a.Valid() && b.exc == a.exc && b.count == a.count < |b.dir|
    requires b.dir[..a.count] == a.dir[..a.count] && b.dir[a.count].offset == a.dir[a.count].offset
    ensures b.Valid() && b.Entries() == a.Entries()
  {
    SameValid(a, b);
    hide Image.Entries, Image.Valid;
    forall k | 0 <= k < b.count
      ensures b.Entries()[k] == a.Entries()[k]
    {
      EntryMatches(a, k, b, k, 0);
    }
  }

  class Leaf {
    const dir: array<MapEntry>
    const exc: array<Exception>
    var count: nat

    ghost predicate Valid()
      reads this, dir, exc
    {
      View().Valid() && 3 + dir.Length == 2 * exc.Length
    }

    ghost function View(): Image
      reads this, dir, exc
    {
      Image(dir[..], exc[..], count)
    }

    ghost function Entries(): (es: Entries)
      requires Valid()
      reads this, dir, exc
      ensures |es| == count
    {
      View().Entries()
    }

    /** An empty leaf in a block of `slots` times 16 bytes. */
    constructor (slots: nat)
      requires slots >= 2
      ensures Valid() && Entries() == [] && exc.Length == slots && fresh(dir) && fresh(exc)
    {
      dir := new MapEntry[2 * slots - 3](_ => MapEntry(0, 0));
      exc := new Exception[slots](_ => Exception({}, 0));
      count := 0;
      new;
      dir[0] := MapEntry(slots, 0);
    }

    /** A block brought in with the given contents. */
    constructor Load(image: Image)
      requires image.Valid() && 3 + |image.dir| == 2 * |image.exc|
      ensures Valid() && View() == image && fresh(dir) && fresh(exc)
    {
      dir := new MapEntry[|image.dir|](k requires 0 <= k < |image.dir| => image.dir[k]);
      exc := new Exception[|image.exc|](k requires 0 <= k < |image.exc| => image.exc[k]);
      count := image.count;
      new;
      assert dir[..] == image.dir && exc[..] == image.exc;
    }

    /** The contents to be written back. */
    method Save() returns (image: Image)
      ensures image == View()
    {
      image := Image(dir[..], exc[..], count);
    }

    /** The first map entry not below `chunk`. */
    method Find(chunk: nat) returns (i: nat)
      requires Valid()
      ensures i == Position(Entries(), chunk)
    {
      hide Image.Entries, Position;
      i := 0;
      while i < count && dir[i].rchunk < chunk
        invariant i <= count
        invariant forall k :: 0 <= k < i ==> Entries()[k].chunk < chunk
      {
        EntryAt(View(), i);
        i := i + 1;
      }
      if i < count {
        EntryAt(View(), i);
      }
      PositionIs(Entries(), chunk, i);
    }

    /** Opens an empty list for `chunk` at map entry `i`. */
    method Open(i: nat, chunk: nat)
      requires Valid() && i <= count && View().Free() >= 1
      modifies this`count, dir
      ensures Valid() && View().Free() == old(View().Free()) - 1 && exc[..] == old(exc[..])
      ensures Entries() == Inserted(old(Entries()), i, Entry(chunk, []))
    {
      ghost var was := View();
      var offset := dir[i].offset;
      forall k | i <= k <= count {
        dir[k + 1] := dir[k];
      }
      dir[i] := MapEntry(offset, chunk);
      count := count + 1;
      Opened(was, View(), i, chunk);
    }

    /** Puts `e` at the front of list `i`. */
    method Prepend(i: nat, e: Exception)
      requires Valid() && i < count && View().Free() >= 2
      modifies dir, exc
      ensures Valid() && View().Free() == old(View().Free()) - 2
      ensures Entries() == old(Entries())[i := Entry(old(dir[i].rchunk), [e] + old(Entries())[i].list)]
    {
      ghost var was := View();
      Bounds(was, i);
      var first, ins := dir[0].offset, dir[i].offset;
      forall p | first - 1 <= p < ins - 1 {
        exc[p] := exc[p + 1];
      }
      exc[ins - 1] := e;
      forall j | 0 <= j <= i {
        dir[j] := dir[j].(offset := dir[j].offset - 1);
      }
      Prepended(was, View(), i, e);
    }

    /** The union of the masks of list `i`. */
    method Shares(i: nat) returns (using: Mask)
      requires Valid() && i < count
      ensures using == AllShares(Entries()[i].list)
    {
      EntryAt(View(), i);
      using := SharesBetween(dir[i].offset, dir[i + 1].offset);
    }

    method SharesBetween(lo: nat, hi: nat) returns (using: Mask)
      requires lo <= hi <= exc.Length
      ensures using == AllShares(exc[lo..hi])
    {
      hide AllShares;
      using := {};
      ghost var list := exc[lo..hi];
      assert list[0..] == list;
      var p := lo;
      while p < hi
        invariant lo <= p <= hi
        invariant using + AllShares(list[p - lo..]) == AllShares(list)
      {
        AllSharesStep(list, p - lo);
        using := using + exc[p].share;
        p := p + 1;
      }
      NoShares(list[p - lo..]);
    }

    /** The map entry of `chunk`, or the sentinel. */
    method Seek(chunk: nat) returns (i: nat)
      requires Valid() && Sorted(Entries())
      ensures i <= count && Lookup(Entries(), chunk) == if i < count then Entries()[i].list else []
    {
      hide Lookup;
      i := 0;
      while i < count && dir[i].rchunk != chunk
        invariant i <= count
        invariant forall k :: 0 <= k < i ==> Entries()[k].chunk != chunk
      {
        EntryAt(View(), i);
        i := i + 1;
      }
      if i < count {
        EntryAt(View(), i);
        LookupAt(Entries(), i);
      } else {
        LookupAbsent(Entries(), chunk);
      }
    }

    /** Whether every snapshot of `mask` has its own version of `chunk`, so that the origin may
        change it. */
    method OriginUnique(chunk: nat, mask: Mask) returns (unique: bool)
      requires Valid() && Sorted(Entries())
      ensures unique <==> mask <= AllShares(Lookup(Entries(), chunk))
    {
      hide Lookup, AllShares, Image.Entries;
      var i := Seek(chunk);
      if i == count {
        NoShares([]);
        return mask == {};
      }
      var using := Shares(i);
      return mask <= using;
    }

    /** Whether a snapshot has a version of `chunk` to itself, and where it finds the chunk. */
    method SnapshotUnique(chunk: nat, bit: nat) returns (unique: bool, place: Place)
      requires Valid() && Sorted(Entries())
      ensures unique <==> Sole(Lookup(Entries(), chunk), bit)
      ensures place == Resolve(Lookup(Entries(), chunk), bit)
    {
      hide Lookup, Resolve, Sole, Image.Entries;
      var i := Seek(chunk);
      if i == count {
        ResolveAt([], 0, bit);
        return false, OnOrigin;
      }
      EntryAt(View(), i);
      ghost var list := Entries()[i].list;
      var p := dir[i].offset;
      while p < dir[i + 1].offset && bit !in exc[p].share
        invariant dir[i].offset <= p <= dir[i + 1].offset
        invariant forall j :: 0 <= j < p - dir[i].offset ==> bit !in list[j].share
      {
        p := p + 1;
      }
      ResolveAt(list, p - dir[i].offset, bit);
      if p == dir[i + 1].offset {
        return false, OnOrigin;
      }
      return exc[p].share == {bit}, InStore(exc[p].chunk);
    }

    /** Takes `bit` out of the first mask of list `i` that has it. */
    method Release(i: nat, bit: nat)
      requires Valid() && i < count
      modifies exc
      ensures Valid() && View().Free() == old(View().Free()) && dir[..] == old(dir[..])
      ensures Entries() == old(Entries())[i := Entry(old(dir[i].rchunk), Released(old(Entries())[i].list, bit))]
    {
      hide Released, Image.Entries;
      EntryAt(View(), i);
      ghost var es := Entries();
      var p := FirstWith(dir[i].offset, dir[i + 1].offset, bit);
      if p < dir[i + 1].offset {
        Remask(i, p, exc[p].share - {bit});
      } else {
        assert es == es[i := es[i]];
      }
    }

    /** Changes the mask of one exception of list `i`. */
    method Remask(i: nat, p: nat, share: Mask)
      requires Valid() && i < count && dir[i].offset <= p < dir[i + 1].offset <= exc.Length
      modifies exc
      ensures Valid() && View().Free() == old(View().Free()) && dir[..] == old(dir[..])
      ensures var list := old(Entries())[i].list;
        var k := p - dir[i].offset;
        && k < |list|
        && Entries() == old(Entries())[i := Entry(dir[i].rchunk, list[k := list[k].(share := share)])]
    {
      ghost var was := View();
      exc[p] := exc[p].(share := share);
      assert View() == was.(exc := was.exc[p := was.exc[p].(share := share)]);
      Remasked(was, View(), i, p, share);
    }

    /** The first slot from `lo` to `hi` whose mask has `bit`, or `hi`. */
    method FirstWith(lo: nat, hi: nat, bit: nat) returns (p: nat)
      requires lo <= hi <= exc.Length
      ensures lo <= p <= hi && (p < hi ==> bit in exc[p].share)
      ensures var list := exc[..][lo..hi];
        Released(list, bit)
        == if p < hi then list[p - lo := list[p - lo].(share := exc[p].share - {bit})] else list
    {
      p := lo;
      while p < hi && bit !in exc[p].share
        invariant lo <= p <= hi
        invariant forall q :: lo <= q < p ==> bit !in exc[q].share
      {
        p := p + 1;
      }
      hide Released;
      ReleasedSlice(exc[..], lo, hi, p, bit);
    }

    /** Records a new version of `chunk` at `address`, or reports that it does not fit and changes
        nothing. */
    method AddException(chunk: nat, address: nat, writer: Writer, active: Mask) returns (full: bool)
      requires Valid() && Sorted(Entries())
      modifies this`count, dir, exc
      ensures Valid()
      ensures full <==> old(View().Free()) < if Present(old(Entries()), chunk) then 2 else 3
      ensures full ==> View() == old(View())
      ensures !full ==> Entries() == WithException(old(Entries()), chunk, address, writer, active)
    {
      hide WithException, Released, AllShares, Sorted;
      ghost var es := Entries();
      var i := Find(chunk);
      var present := i < count && dir[i].rchunk == chunk;
      if i < count {
        EntryAt(View(), i);
      }
      var free := Room();
      if free < if present then 2 else 3 {
        return true;
      }
      full := false;
      if present {
        Revise(i, address, writer, active);
      } else {
        Begin(i, chunk, address, writer, active);
      }
      AddedIs(es, Entries(), i, chunk, address, writer, active);
    }

    /** A first version of `chunk`, in a new map entry. */
    method Begin(i: nat, chunk: nat, address: nat, writer: Writer, active: Mask)
      requires Valid() && i <= count && View().Free() >= 3
      modifies this`count, dir, exc
      ensures Valid()
      ensures Entries() == Inserted(old(Entries()), i, Entry(chunk, WithVersion([], address, writer, active)))
    {
      hide Image.Entries, Inserted, WithVersion;
      ghost var es := Entries();
      Open(i, chunk);
      EntryAt(View(), i);
      ghost var begun := Entries();
      assert begun[i] == Entry(chunk, []);
      var share := if writer.Origin? then active else {writer.bit};
      Prepend(i, Exception(share, address));
      FirstVersion(address, writer, active);
      ghost var e := Entry(chunk, WithVersion([], address, writer, active));
      InsertThenSet(es, i, Entry(chunk, []), e);
    }

    /** Another version of the chunk of map entry `i`. */
    method Revise(i: nat, address: nat, writer: Writer, active: Mask)
      requires Valid() && i < count && View().Free() >= 2
      modifies this`count, dir, exc
      ensures Valid()
      ensures var e := old(Entries())[i];
        Entries() == old(Entries())[i := Entry(e.chunk, WithVersion(e.list, address, writer, active))]
    {
      hide Released, AllShares, Image.Entries;
      EntryAt(View(), i);
      ghost var es := Entries();
      var share;
      if writer.Origin? {
        var using := Shares(i);
        share := active - using;
      } else {
        Release(i, writer.bit);
        share := {writer.bit};
        assert Entries()[i].list == Released(es[i].list, writer.bit);
      }
      ghost var middle := Entries();
      ghost var e := Entry(es[i].chunk, WithVersion(es[i].list, address, writer, active));
      assert e.list == [Exception(share, address)] + middle[i].list && dir[i].rchunk == es[i].chunk;
      Prepend(i, Exception(share, address));
      assert Entries() == middle[i := e];
      assert middle[i := e] == es[i := e];
    }

    /** Moves the upper half of the chunks to `upper` and closes up the rest. The first chunk moved
        is returned. */
    method SplitInto(upper: Leaf) returns (splitpoint: nat)
      requires Valid() && count >= 2 && upper != this && upper.dir != dir && upper.exc != exc
      requires upper.dir.Length == dir.Length && upper.exc.Length == exc.Length
      modifies this`count, dir, exc, upper`count, upper.dir, upper.exc
      ensures Valid() && upper.Valid()
      ensures var n := (old(count) + 1) / 2;
        && Entries() == old(Entries())[..n] && upper.Entries() == old(Entries())[n..]
        && splitpoint == old(Entries())[n].chunk
    {
      ghost var was, spare := View(), upper.View();
      var n := (count + 1) / 2;
      EntryAt(was, n);
      splitpoint := dir[n].rchunk;
      CopyUpper(upper, n);
      KeepLower(n);
      hide Image.Valid, Image.Entries, SplitLower, SplitUpper;
      SplitHalves(was, spare, n);
    }

    method CopyUpper(upper: Leaf, n: nat)
      requires n < count < dir.Length && upper != this && upper.dir != dir && upper.exc != exc
      requires upper.dir.Length == dir.Length && upper.exc.Length == exc.Length
      requires dir[n].offset <= exc.Length
      modifies upper`count, upper.dir, upper.exc
      ensures upper.View() == SplitUpper(View(), old(upper.View()), n)
    {
      var cut := dir[n].offset;
      hide Pasted;
      Copy(upper.dir, 0, dir, n, count - n + 1);
      Copy(upper.exc, cut, exc, cut, exc.Length - cut);
      upper.count := count - n;
    }

    method KeepLower(n: nat)
      requires n < count < dir.Length && dir[0].offset <= dir[n].offset <= exc.Length
      modifies this`count, dir, exc
      ensures View() == SplitLower(old(View()), n)
    {
      var first, cut, length := dir[0].offset, dir[n].offset, exc.Length;
      hide Pasted, Shifted;
      Move(exc, first + (length - cut), first, cut - first);
      count := n;
      ShiftOffsets(n, length - cut);
      dir[n] := dir[n].(rchunk := 0);
    }

    /** Adds `delta` to the offsets of map entries up to and including `n`. */
    method ShiftOffsets(n: nat, delta: int)
      requires n < dir.Length && forall k :: 0 <= k <= n ==> 0 <= dir[k].offset + delta
      modifies dir
      ensures dir[..] == Shifted(old(dir[..]), n, delta)
    {
      forall k | 0 <= k <= n {
        dir[k] := dir[k].(offset := dir[k].offset + delta);
      }
    }

    /** Takes over everything `next` records, which comes after everything recorded here. */
    method MergeFrom(next: Leaf)
      requires Valid() && next.Valid() && next != this && next.dir != dir && next.exc != exc
      requires next.exc.Length == exc.Length && Payload(next.Entries()) <= View().Free()
      modifies this`count, dir, exc
      ensures Valid() && next.Valid() && Entries() == old(Entries()) + old(next.Entries())
    {
      ghost var was, other := View(), next.View();
      MergeFits(was, other);
      MergeMoves(next);
      hide Image.Valid, Image.Entries, Merged, Joined;
      MergedJoins(was, other);
      JoinedValid(was, other, View());
      JoinedEntries(was, other, View());
    }

    method MergeMoves(next: Leaf)
      requires next.dir != dir && next.exc != exc && next != this
      requires count < dir.Length && next.count < next.dir.Length && exc.Length == next.exc.Length
      requires count + next.count < dir.Length && next.dir[0].offset <= exc.Length && dir[0].offset <= exc.Length
      requires exc.Length - next.dir[0].offset <= dir[0].offset
      requires forall k :: 0 <= k <= count ==> exc.Length - next.dir[0].offset <= dir[k].offset
      modifies this`count, dir, exc
      ensures View() == Merged(old(View()), next.View())
    {
      hide MergedExc, MergedDir;
      var tail := exc.Length - next.dir[0].offset;
      MergeExceptions(next, tail);
      MergeMap(next, tail);
      count := count + next.count;
    }

    method MergeExceptions(next: Leaf, tail: nat)
      requires next.exc != exc && exc.Length == next.exc.Length && dir.Length > 0
      requires tail <= dir[0].offset <= exc.Length
      modifies exc
      ensures exc[..] == MergedExc(old(exc[..]), dir[0].offset, next.exc[..], tail)
    {
      hide Pasted;
      Move(exc, dir[0].offset - tail, dir[0].offset, exc.Length - dir[0].offset);
      Copy(exc, exc.Length - tail, next.exc, exc.Length - tail, tail);
    }

    method MergeMap(next: Leaf, tail: nat)
      requires next.dir != dir && count + next.count < dir.Length && next.count < next.dir.Length
      requires forall k :: 0 <= k <= count ==> tail <= dir[k].offset
      modifies dir
      ensures dir[..] == MergedDir(old(dir[..]), count, next.dir[..], next.count, tail)
    {
      hide Pasted, Shifted;
      ShiftOffsets(count, 0 - tail);
      Copy(dir, count, next.dir, 0, next.count + 1);
    }

    /** Takes `mask` out of the exceptions in slots `lo` to `hi`, last first, moving those still
        shared to end at `top`. */
    method Compact(lo: nat, hi: nat, top: nat, mask: Mask) returns (dest: nat, any: bool, freed: seq<nat>)
      requires lo <= hi <= top <= exc.Length
      modifies exc
      ensures lo <= dest <= top && dest >= top - (hi - lo)
      ensures var now, was := exc[..], old(exc[..]);
        && now[dest..top] == Without(was[lo..hi], mask)
        && now[..lo] == was[..lo] && now[top..] == was[top..]
        && freed == Orphans(was[lo..hi], mask) && (any <==> Touches(was[lo..hi], mask))
    {
      hide Without, Orphans, Touches;
      dest, any, freed := CompactSlots(lo, hi, top, mask);
      assert exc[..][dest..top] == exc[dest..top] && old(exc[..])[lo..hi] == old(exc[lo..hi]);
      assert exc[..][..lo] == exc[..lo] && old(exc[..])[..lo] == old(exc[..lo]);
      assert exc[..][top..] == exc[top..] && old(exc[..])[top..] == old(exc[top..]);
    }

    method CompactSlots(lo: nat, hi: nat, top: nat, mask: Mask) returns (dest: nat, any: bool, freed: seq<nat>)
      requires lo <= hi <= top <= exc.Length
      modifies exc
      ensures lo <= dest <= top && dest >= top - (hi - lo)
      ensures exc[dest..top] == Without(old(exc[lo..hi]), mask)
      ensures exc[..lo] == old(exc[..lo]) && exc[top..] == old(exc[top..])
      ensures freed == Orphans(old(exc[lo..hi]), mask)
      ensures any <==> Touches(old(exc[lo..hi]), mask)
    {
      hide Without, Orphans, Touches;
      ghost var list := exc[lo..hi];
      dest, any, freed := top, false, [];
      var p := hi;
      WithoutEnd(list[hi - lo..], mask);
      while p != lo
        invariant lo <= p <= hi && p <= dest <= top && dest >= top - (hi - p)
        invariant exc[..p] == old(exc[..p]) && exc[top..] == old(exc[top..])
        invariant exc[dest..top] == Without(list[p - lo..], mask)
        invariant freed == Orphans(list[p - lo..], mask)
        invariant any <==> Touches(list[p - lo..], mask)
      {
        p := p - 1;
        var e := exc[p];
        assert e == old(exc[..p + 1])[p] == list[p - lo];
        WithoutStep(list, p - lo, mask);
        if e.share * mask != {} {
          any := true;
        }
        ghost var kept := exc[dest..top];
        exc[p] := e.(share := e.share - mask);
        assert exc[dest..top] == kept;
        if e.share - mask != {} {
          dest := dest - 1;
          exc[dest] := exc[p];
          assert exc[dest..top] == [e.(share := e.share - mask)] + kept;
        } else {
          freed := [e.chunk] + freed;
        }
      }
      assert list[0..] == list;
    }

    /** What map entries `i` and up record. */
    ghost function Suffix(i: nat): Image
      requires i <= count < dir.Length
      reads this, dir, exc
    {
      Image(dir[i..], exc[..], count - i)
    }

    /** Lists `i` and up are compacted; everything before slot `p`, where list `i` began, is as it
        was. */
    ghost predicate Thinning(was: Image, mask: Mask, i: nat, p: nat, any: bool, freed: seq<nat>)
      requires was.Valid()
      reads this, dir, exc
    {
      && count == was.count && count < dir.Length == |was.dir| && exc.Length == |was.exc| && i <= count
      && p == was.dir[i].offset <= dir[i].offset <= exc.Length
      && dir[..i] == was.dir[..i] && exc[..][..p] == was.exc[..p]
      && Suffix(i).Valid() && Suffix(i).Entries() == Thinned(was.Entries()[i..], mask)
      && freed == AllOrphans(was.Entries()[i..], mask)
      && (any <==> exists k :: i <= k < count && Touches(was.Entries()[k].list, mask))
    }

    lemma ThinningStarts(mask: Mask)
      requires Valid()
      ensures Thinning(View(), mask, count, dir[count].offset, false, [])
    {
      assert View().Entries()[count..] == [] && Suffix(count).Valid() && Suffix(count).Entries() == [];
    }

    lemma ThinningEnds(was: Image, mask: Mask, p: nat, any: bool, freed: seq<nat>)
      requires was.Valid() && Thinning(was, mask, 0, p, any, freed) && 3 + dir.Length == 2 * exc.Length
      ensures Valid() && Entries() == Thinned(was.Entries(), mask)
      ensures freed == AllOrphans(was.Entries(), mask) && (any <==> AnyTouches(was.Entries(), mask))
    {
      assert was.Entries()[0..] == was.Entries() && dir[0..] == dir[..];
    }

    /** First pass: compacts the lists towards the end of the block, last list first. */
    method Thin(mask: Mask) returns (any: bool, freed: seq<nat>)
      requires Valid()
      modifies dir, exc
      ensures Valid() && Entries() == Thinned(old(Entries()), mask)
      ensures freed == AllOrphans(old(Entries()), mask) && (any <==> AnyTouches(old(Entries()), mask))
    {
      ghost var was := View();
      any, freed := false, [];
      var i, p := count, dir[count].offset;
      ThinningStarts(mask);
      hide Leaf.Thinning, Image.Valid, Image.Entries, Thinned, AllOrphans, AnyTouches;
      while i > 0
        invariant Thinning(was, mask, i, p, any, freed)
      {
        i := i - 1;
        any, freed, p := ThinNext(was, mask, i, p, any, freed);
      }
      ThinningEnds(was, mask, p, any, freed);
    }

    method ThinNext(ghost was: Image, mask: Mask, i: nat, hi: nat, any0: bool, freed0: seq<nat>)
        returns (any: bool, freed: seq<nat>, lo: nat)
      requires was.Valid() && Thinning(was, mask, i + 1, hi, any0, freed0)
      modifies dir, exc
      ensures Thinning(was, mask, i, lo, any, freed)
    {
      ghost var es := was.Entries();
      EntryAt(was, i);
      hide Image.Entries, Thinned, AllOrphans, Touches;
      assert dir[i] == dir[..i + 1][i] == was.dir[..i + 1][i];
      assert dir[..i] == dir[..i + 1][..i] && was.dir[..i] == was.dir[..i + 1][..i];
      PrefixSlice(exc[..], was.exc, was.dir[i].offset, hi);
      any, freed, lo := ThinOne(i, hi, any0, freed0, mask, es);
    }

    /** Compacts list `i`, whose exceptions end at slot `hi`. */
    method ThinOne(i: nat, hi: nat, any0: bool, freed0: seq<nat>, mask: Mask, ghost es: Entries)
        returns (any: bool, freed: seq<nat>, lo: nat)
      requires i < count < dir.Length && |es| == count && 3 + count + 1 <= 2 * dir[i].offset
      requires dir[i].offset <= hi <= dir[i + 1].offset <= exc.Length
      requires es[i] == Entry(dir[i].rchunk, exc[..][dir[i].offset..hi])
      requires Suffix(i + 1).Valid() && Suffix(i + 1).Entries() == Thinned(es[i + 1..], mask)
      requires freed0 == AllOrphans(es[i + 1..], mask)
      requires any0 <==> exists k :: i + 1 <= k < |es| && Touches(es[k].list, mask)
      modifies dir, exc
      ensures lo == old(dir[i].offset) <= dir[i].offset <= exc.Length
      ensures dir[..i] == old(dir[..i]) && exc[..][..lo] == old(exc[..])[..lo]
      ensures Suffix(i).Valid() && Suffix(i).Entries() == Thinned(es[i..], mask)
      ensures freed == AllOrphans(es[i..], mask)
      ensures any <==> exists k :: i <= k < |es| && Touches(es[k].list, mask)
    {
      ghost var rest := Suffix(i + 1);
      lo := dir[i].offset;
      var top := dir[i + 1].offset;
      var dest, some, orphans := Compact(lo, hi, top, mask);
      dir[i] := dir[i].(offset := dest);
      any, freed := any0 || some, orphans + freed0;
      assert es[i..][1..] == es[i + 1..] && es[i..][0] == es[i];
      assert dir[i..][1..] == rest.dir && rest.dir[0].offset == top;
      ConsEntry(rest, Suffix(i));
      ThinnedCons(es, i, mask);
    }

    /** The first `d` map entries, then those from `i` on. */
    ghost function Spliced(d: nat, i: nat): Image
      requires d <= i <= count < dir.Length
      reads this, dir, exc
    {
      Image(dir[..d] + dir[i..], exc[..], d + (count - i))
    }

    /** Second pass: closes up the map over the entries left without exceptions. */
    method CloseMap()
      requires Valid()
      modifies this`count, dir
      ensures Valid() && Entries() == DropEmpties(old(Entries()))
    {
      ghost var es, last := Entries(), count;
      var d := CloseUp();
      ghost var v := Spliced(d, count);
      CloseEnd(dir[..], d, count, MapEntry(dir[count].offset, 0));
      dir[d] := MapEntry(dir[count].offset, 0);
      count := d;
      SameEntries(v, View());
    }

    method CloseUp() returns (d: nat)
      requires Valid()
      modifies dir
      ensures d <= count < dir.Length && Spliced(d, count).Valid()
      ensures Spliced(d, count).Entries() == DropEmpties(old(Entries()))
    {
      hide Image.Entries, Image.Valid, DropEmpties;
      ghost var es := Entries();
      d := 0;
      var i: nat := 0;
      InRange(View());
      assert dir[..0] + dir[0..] == dir[..] && Spliced(0, 0) == View();
      DropNothing(es);
      while i < count
        invariant d <= i <= count < dir.Length && |es| == count
        invariant Spliced(d, i).Valid() && d == |DropEmpties(es[..i])|
        invariant Spliced(d, i).Entries() == DropEmpties(es[..i]) + es[i..]
      {
        d := CloseOne(d, i, es);
        i := i + 1;
      }
      assert es[..|es|] == es && DropEmpties(es) + es[|es|..] == DropEmpties(es);
    }

    method CloseOne(d0: nat, i: nat, ghost es: Entries) returns (d: nat)
      requires d0 <= i < count < dir.Length && |es| == count
      requires Spliced(d0, i).Valid() && d0 == |DropEmpties(es[..i])|
      requires Spliced(d0, i).Entries() == DropEmpties(es[..i]) + es[i..]
      modifies dir
      ensures d <= i + 1 && d == |DropEmpties(es[..i + 1])|
      ensures Spliced(d, i + 1).Valid() && Spliced(d, i + 1).Entries() == DropEmpties(es[..i + 1]) + es[i + 1..]
    {
      hide Image.Entries, Image.Valid, DropEmpties;
      ghost var v := Spliced(d0, i);
      EntryAt(v, d0);
      KeepOne(es, i);
      SplicedAt(dir[..], d0, i);
      if dir[i].offset != dir[i + 1].offset {
        dir[d0] := dir[i];
        d := d0 + 1;
      } else {
        d := d0;
        DropEntry(v, Spliced(d, i + 1), d);
      }
    }

    /** Takes the snapshots of `mask` out of every exception, frees the exceptions left unshared and
        closes up the block. */
    method RemoveSnapshots(mask: Mask) returns (any: bool, freed: seq<nat>)
      requires Valid()
      modifies this`count, dir, exc
      ensures Valid() && Entries() == WithoutSnapshots(old(Entries()), mask)
      ensures freed == AllOrphans(old(Entries()), mask) && (any <==> AnyTouches(old(Entries()), mask))
    {
      any, freed := Thin(mask);
      CloseMap();
      DropThinned(old(Entries()), mask);
    }

    /** What the map entries and the exceptions take. */
    method Used() returns (used: nat)
      requires Valid()
      ensures used == Payload(Entries())
    {
      FreeIsRest(View());
      assert dir[0].offset <= dir[count].offset;
      used := count + 2 * (dir[count].offset - dir[0].offset);
    }

    /** Room between the two regions. */
    method Room() returns (free: nat)
      requires Valid()
      ensures free == View().Free()
    {
      free := 2 * dir[0].offset - (3 + count + 1);
    }
  }

  lemma ReleasedSlice(s: seq<Exception>, lo: nat, hi: nat, p: nat, bit: nat)
    requires lo <= p <= hi <= |s|
    requires forall q :: lo <= q < p ==> bit !in s[q].share
    requires p < hi ==> bit in s[p].share
    ensures var list := s[lo..hi];
      Released(list, bit)
      == if p < hi then list[p - lo := list[p - lo].(share := s[p].share - {bit})] else list
  {
    var list := s[lo..hi];
    assert forall j :: 0 <= j < |list| ==> list[j] == s[lo + j];
    ReleasedAt(list, p - lo, bit);
  }

  lemma InsertThenSet(es: Entries, i: nat, e: Entry, f: Entry)
    requires i <= |es|
    ensures Inserted(es, i, e)[i := f] == Inserted(es, i, f)
  {
    hide Inserted;
  }

  lemma FirstVersion(address: nat, writer: Writer, active: Mask)
    ensures WithVersion([], address, writer, active)
         == [Exception(if writer.Origin? then active else {writer.bit}, address)] + []
  {
    assert active - {} == active;
  }

  lemma WithoutStep(list: seq<Exception>, k: nat, mask: Mask)
    requires k < |list|
    ensures var e := list[k];
      && Without(list[k..], mask)
         == (if e.share - mask != {} then [e.(share := e.share - mask)] else []) + Without(list[k + 1..], mask)
      && Orphans(list[k..], mask) == (if e.share - mask == {} then [e.chunk] else []) + Orphans(list[k + 1..], mask)
      && (Touches(list[k..], mask) <==> e.share * mask != {} || Touches(list[k + 1..], mask))
  {
    var s, t := list[k..], list[k + 1..];
    assert s[1..] == t && s[0] == list[k];
    assert forall j :: 0 <= j < |t| ==> t[j] == s[j + 1];
  }

  lemma WithoutEnd(list: seq<Exception>, mask: Mask)
    requires list == []
    ensures Without(list, mask) == [] && Orphans(list, mask) == [] && !Touches(list, mask)
  {
  }

  lemma PrefixSlice(s: seq<Exception>, t: seq<Exception>, lo: nat, hi: nat)
    requires lo <= hi <= |s| && hi <= |t| && s[..hi] == t[..hi]
    ensures s[lo..hi] == t[lo..hi] && s[..lo] == t[..lo]
  {
    assert s[lo..hi] == s[..hi][lo..] && t[lo..hi] == t[..hi][lo..];
    assert s[..lo] == s[..hi][..lo] && t[..lo] == t[..hi][..lo];
  }

  /** Splicing a sequence at `i` onto its first `d` elements, one step further. */
  lemma SplicedAt<T>(s: seq<T>, d: nat, i: nat)
    requires d <= i && i + 1 < |s|
    ensures var v := s[..d] + s[i..];
      && v[d] == s[i] && v[d + 1] == s[i + 1]
      && s[d := s[i]][..d + 1] + s[d := s[i]][i + 1..] == v
      && s[..d] + s[i + 1..] == v[..d] + v[d + 1..]
  {
  }

  lemma InRange(a: Image)
    requires a.Valid()
    ensures a.count < |a.dir|
  {
  }

  lemma CloseEnd(dir: seq<MapEntry>, d: nat, last: nat, e: MapEntry)
    requires d <= last < |dir|
    ensures var v := dir[..d] + dir[last..];
      v[d] == dir[last] && v[..d] == dir[..d] == dir[d := e][..d]
  {
  }

  lemma DropNothing(es: Entries)
    ensures DropEmpties(es[..0]) == [] && DropEmpties(es[..0]) + es[0..] == es
  {
  }

  lemma KeepOne(es: Entries, i: nat)
    requires i < |es|
    ensures var kept, more := DropEmpties(es[..i]), DropEmpties(es[..i + 1]);
      && (kept + es[i..])[|kept|] == es[i]
      && (es[i].list != [] ==> |more| == |kept| + 1 && more + es[i + 1..] == kept + es[i..])
      && (es[i].list == [] ==> more == kept && more + es[i + 1..] == (kept + es[i..])[..|kept|] + (kept + es[i..])[|kept| + 1..])
  {
    hide DropEmpties;
    DropEmptiesLast(es[..i], es[i]);
    assert es[..i + 1] == es[..i] + [es[i]] && es[i..] == [es[i]] + es[i + 1..];
  }

  lemma NoShares(list: seq<Exception>)
    ensures list == [] ==> AllShares(list) == {}
  {
  }

  /** The edits of `AddException` amount to `WithException`. */
  lemma AddedIs(es: Entries, r: Entries, i: nat, chunk: nat, address: nat, writer: Writer, active: Mask)
    requires i == Position(es, chunk)
    requires var e := Entry(chunk, WithVersion(Lookup(es, chunk), address, writer, active));
      r == if Present(es, chunk) then es[i := e] else Inserted(es, i, e)
    ensures r == WithException(es, chunk, address, writer, active)
  {
  }

  /** The two halves of a leaf always fit together again. */
  lemma HalvesFit(was: Image, lower: Image, upper: Image, n: nat)
    requires was.Valid() && lower.Valid() && upper.Valid() && |was.exc| == |lower.exc| == |upper.exc| && n <= was.count
    requires lower.Entries() == was.Entries()[..n] && upper.Entries() == was.Entries()[n..]
    ensures Payload(upper.Entries()) <= lower.Free()
  {
    hide Image.Valid, Image.Entries, Image.Free;
    FreeIsRest(was);
    FreeIsRest(lower);
    var es := was.Entries();
    assert es == es[..n] + es[n..];
    VersionsConcat(es[..n], es[n..]);
  }

  /** Merging undoes splitting. */
  method SplitAndMerge(lower: Leaf, upper: Leaf)
    requires lower.Valid() && lower.count >= 2 && upper != lower && upper.dir != lower.dir && upper.exc != lower.exc
    requires upper.dir.Length == lower.dir.Length && upper.exc.Length == lower.exc.Length
    modifies lower, lower.dir, lower.exc, upper, upper.dir, upper.exc
    ensures lower.Valid() && lower.Entries() == old(lower.Entries())
  {
    hide Image.Valid, Image.Entries, Image.Free, Payload;
    ghost var was, n := lower.View(), (lower.count + 1) / 2;
    var splitpoint := lower.SplitInto(upper);
    HalvesFit(was, lower.View(), upper.View(), n);
    lower.MergeFrom(upper);
    assert was.Entries()[..n] + was.Entries()[n..] == was.Entries();
  }
}
