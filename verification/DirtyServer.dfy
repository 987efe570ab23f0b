/** The server that keeps the log of dirty regions. */
module DirtyServer {
  import opened DirtyStream
  import opened DirtyScan
  import opened DirtyLog
  import opened Ring
  import opened Cardinality

  /** The disk has the last turn of blocks written. */
  ghost predicate OnDisk(disk: seq<Block>, hist: seq<Block>, size: nat) {
    && 2 <= size == |disk| <= |hist| && (forall q :: 0 <= q < |hist| ==> hist[q].sequence == q)
    && forall q :: |hist| - size <= q < |hist| ==> disk[q % size] == hist[q]
  }

  lemma OnDiskAt(disk: seq<Block>, hist: seq<Block>, size: nat, q: nat)
    requires OnDisk(disk, hist, size) && |hist| - size <= q < |hist|
    ensures 2 <= size == |disk| <= |hist| && q % size < size && disk[q % size] == hist[q]
  {
  }

  lemma DiskSize(disk: seq<Block>, hist: seq<Block>, size: nat)
    requires OnDisk(disk, hist, size)
    ensures 2 <= size == |disk| <= |hist|
  {
  }

  lemma OnDiskNext(disk: seq<Block>, hist: seq<Block>, size: nat, b: Block)
    requires OnDisk(disk, hist, size) && b.sequence == |hist|
    ensures OnDisk(disk[|hist| % size := b], hist + [b], size)
  {
    var now, disk' := hist + [b], disk[|hist| % size := b];
    forall q | |now| - size <= q < |now|
      ensures disk'[q % size] == now[q]
    {
      if q < |hist| {
        if q % size == |hist| % size {
          SameSlot(q, |hist|, size);
        }
        OnDiskAt(disk, hist, size, q);
      }
    }
  }

  /** What a crash leaves: perhaps with the block being written torn. */
  function Crashed(disk: seq<Block>, at: nat, torn: bool): seq<Slot> {
    seq(|disk|, p requires 0 <= p < |disk| => if torn && p == at then Torn else Intact(disk[p]))
  }

  lemma CrashSize(disk: seq<Block>, at: nat, torn: bool)
    ensures |Crashed(disk, at, torn)| == |disk|
  {
  }

  lemma CrashInOrder(disk: seq<Block>, hist: seq<Block>, size: nat, torn: bool)
    requires OnDisk(disk, hist, size)
    ensures InOrder(Crashed(disk, |hist| % size, torn), |hist| - 1, torn)
  {
    var ring, n := Crashed(disk, |hist| % size, torn), |hist| - 1;
    forall p | 0 <= p < size && !(torn && p == |hist| % size)
      ensures ring[p].Intact? && ring[p].block.sequence == Expected(n, size, p)
    {
      InTurn(n, size, p);
      OnDiskAt(disk, hist, size, Expected(n, size, p));
    }
  }

  lemma InTurn(n: nat, size: nat, p: nat)
    requires p < size <= n + 1 && size >= 2
    ensures n + 1 - size <= Expected(n, size, p) <= n && 0 <= Expected(n, size, p) && Expected(n, size, p) % size == p
  {
    var w, k := (n + 1) % size, (n + 1) / size;
    assert n + 1 == k * size + w;
    assert k >= 1;
    if p < w {
      ModIs(n + 1 - w + p, k, p, size);
    } else {
      assert (k - 1) * size == k * size - size;
      ModIs(n + 1 - w + p - size, k - 1, p, size);
    }
  }

  /** The torn block is none of those of use. */
  lemma CrashLive(disk: seq<Block>, hist: seq<Block>, size: nat, saved: nat, torn: bool)
    requires OnDisk(disk, hist, size) && saved < |hist| < saved + size
    ensures Live(Crashed(disk, |hist| % size, torn), hist, saved)
  {
    var ring := Crashed(disk, |hist| % size, torn);
    forall q | saved <= q < |hist|
      ensures ring[q % size] == Intact(hist[q])
    {
      if q % size == |hist| % size {
        SameSlot(q, |hist|, size);
      }
      OnDiskAt(disk, hist, size, q);
    }
  }

  class Server {
    const size: nat
    const max: nat
    var disk: seq<Block>
    var newest: Block
    var newestBlock: nat
    var regions: map<nat, Region>
    var grants: seq<nat>
    var stuck: bool
    /** Every block ever written, the number of the oldest one of use, and of the one each region's
        last entry is in. */
    ghost var hist: seq<Block>
    ghost var oldest: nat
    ghost var since: map<nat, nat>
    /** The regions held when the last block was written, and the oldest block of use then. */
    ghost var committed: set<nat>
    ghost var saved: nat

    ghost predicate Sound()
      reads this
    {
      && 1 <= max && OnDisk(disk, hist, size) && newest.sequence == |hist| && newestBlock == |hist| % size
      && Tracks(hist, newest, oldest, since, regions, size) && |newest.entries| <= max
      && (oldest == |hist| ==> newest.oldestEntry == 0)
      && Saved(hist, saved, committed, size)
      && (forall r :: r in regions && since[r] < |hist| ==> r in committed) && (newest.entries == [] ==> grants == [])
    }

    /** Between messages there is room for another entry, and the newest block has only what has
        happened since the last one was written, unless the server is stuck. */
    ghost predicate Valid()
      reads this
    {
      Sound() && (!stuck ==> |newest.entries| < max && Began(newest.entries, regions.Keys, committed))
    }

    /** How many clients hold a region. */
    ghost function Holders(r: nat): nat
      reads this
    {
      if r in regions then regions[r].count else 0
    }

    /** Whatever write was under way when the server stopped, reading the log again finds exactly
        the regions held when the last block was written. */
    method Crash(torn: bool) returns (held: set<nat>)
      requires Sound()
      ensures held == committed
    {
      hide Saved, Tracks, OnDisk, Live, InOrder, Crashed;
      CrashSize(disk, newestBlock, torn);
      SavedMeans(hist, saved, committed, size);
      DiskSize(disk, hist, size);
      var ring := Crashed(disk, newestBlock, torn);
      CrashInOrder(disk, hist, size, torn);
      CrashLive(disk, hist, size, saved, torn);
      OrderCoherent(ring, |hist| - 1, torn);
      var scan := FindNewest(ring);
      held := Load(ring, scan.newest, hist, saved, committed);
    }

    /** A freshly created log, just loaded. */
    constructor (size: nat, max: nat)
      requires size >= 2 && max >= 1
      ensures Valid() && regions == map[] && committed == {} && !stuck && grants == [] && newest.entries == [] && this.max == max
    {
      this.size, this.max := size, max;
      var blank := seq(size, i requires 0 <= i < size => Block(i, i, 0, []));
      disk, hist := blank, blank;
      newest, newestBlock := Block(size, size - 1, 0, []), 0;
      regions, grants, stuck := map[], [], false;
      oldest, since, committed, saved := size - 1, map[], {}, size - 1;
      new;
      BlankSound(blank, size);
      BeganNow({});
      assert regions.Keys == {};
    }

    /** A region is about to be written: says whether the log has to say so first. */
    method Get(r: nat) returns (logged: bool)
      requires Valid() && !stuck
      modifies this`newest, this`regions, this`since
      ensures Sound() && Began(newest.entries, regions.Keys, committed)
      ensures logged == (r !in old(regions)) && regions.Keys == old(regions).Keys + {r}
      ensures |newest.entries| == |old(newest).entries| + if logged then 1 else 0
      ensures r in old(regions) ==> since == old(since)
      ensures forall s :: Holders(s) == old(Holders(s)) + if s == r then 1 else 0
    {
      hide OnDisk, Tracks, Saved, Began;
      TracksKeys(hist, newest, oldest, since, regions, size);
      if r in regions && regions[r].count > 0 {
        TracksCount(hist, newest, oldest, since, regions, size, r, regions[r].count + 1);
        regions := regions[r := regions[r].(count := regions[r].count + 1)];
        assert regions.Keys == old(regions).Keys;
        return false;
      }
      TracksDirty(hist, newest, oldest, since, regions, size, r, 1);
      BeganDirty(newest.entries, regions.Keys, committed, r);
      regions := regions[r := Region(1, newestBlock, |newest.entries|)];
      newest := newest.(entries := newest.entries + [Dirty(r)]);
      since := since[r := |hist|];
      assert regions.Keys == old(regions).Keys + {r};
      return true;
    }

    /** A write to a region is over: the last one is logged. */
    method Put(r: nat)
      requires Valid() && !stuck
      modifies this`newest, this`regions, this`since
      ensures Sound() && Began(newest.entries, regions.Keys, committed)
      ensures forall s :: Holders(s) == old(Holders(s)) - if s == r && old(Holders(s)) > 0 then 1 else 0
      ensures |newest.entries| == |old(newest).entries| + if old(Holders(r)) == 1 then 1 else 0
    {
      hide OnDisk, Tracks, Saved, Began;
      TracksKeys(hist, newest, oldest, since, regions, size);
      if r !in regions || regions[r].count == 0 {
        return;
      }
      if regions[r].count > 1 {
        TracksCount(hist, newest, oldest, since, regions, size, r, regions[r].count - 1);
        regions := regions[r := regions[r].(count := regions[r].count - 1)];
        assert regions.Keys == old(regions).Keys;
        return;
      }
      TracksClean(hist, newest, oldest, since, regions, size, r);
      BeganClean(newest.entries, regions.Keys, committed, r);
      regions := regions - {r};
      newest := newest.(entries := newest.entries + [Clean(r)]);
      since := since - {r};
      assert regions.Keys == old(regions).Keys - {r};
    }

    /** The entries of the oldest block of use. */
    method OldEntries() returns (entries: seq<LogEntry>)
      requires Sound()
      ensures entries == (hist + [newest])[oldest].entries
      ensures (newest.oldestBlock == newestBlock) == (oldest == |hist|)
    {
      hide OnDisk, Saved;
      if newest.oldestBlock == newestBlock {
        SameSlot(oldest, |hist|, size);
        return newest.entries;
      }
      OnDiskAt(disk, hist, size, oldest);
      return disk[newest.oldestBlock].entries;
    }

    method RetireOldBlock()
      requires Sound() && oldest < |hist| && newest.oldestEntry == |(hist + [newest])[oldest].entries|
      modifies this`newest, this`oldest
      ensures Sound() && oldest == old(oldest) + 1 && newest == old(newest).(oldestBlock := oldest % size, oldestEntry := 0)
    {
      hide OnDisk, Saved;
      TracksNext(hist, newest, oldest, since, regions, size);
      NextSlot(oldest, size);
      var next := newest.oldestBlock + 1;
      newest := newest.(oldestBlock := if next == size then 0 else next, oldestEntry := 0);
      oldest := oldest + 1;
    }

    /** Passes over the oldest entry; if a region held depends on it, it is logged again first. */
    method RetireOldEntry()
      requires Sound() && oldest < |hist| && newest.oldestEntry < |(hist + [newest])[oldest].entries| && |newest.entries| < max
      modifies this`newest, this`regions, this`since
      ensures Sound() && regions.Keys == old(regions).Keys && newest.oldestEntry == old(newest).oldestEntry + 1
      ensures forall s :: Holders(s) == old(Holders(s))
      ensures newest.entries == old(newest).entries || |newest.entries| == |old(newest).entries| + 1
      ensures |newest.entries| + |Earlier()| == |old(newest).entries| + |old(Earlier())|
    {
      hide OnDisk, Saved, Tracks;
      TracksKeys(hist, newest, oldest, since, regions, size);
      var entries := OldEntries();
      var entry := entries[newest.oldestEntry];
      if entry.Dirty? && entry.region in regions {
        var r := entry.region;
        var region := regions[r];
        if region.count > 0 && region.block == newest.oldestBlock && region.entry == newest.oldestEntry {
          EarlierBlock(hist, newest, oldest, since, regions, size, r);
          TracksKeep(hist, newest, oldest, since, regions, size);
          regions := regions[r := Region(region.count, newestBlock, |newest.entries|)];
          newest := newest.(entries := newest.entries + [entry], oldestEntry := newest.oldestEntry + 1);
          since := since[r := |hist|];
          assert Earlier() == old(Earlier()) - {r} && r in old(Earlier());
          return;
        }
      }
      TracksDrop(hist, newest, oldest, since, regions, size);
      newest := newest.(oldestEntry := newest.oldestEntry + 1);
      assert Earlier() == old(Earlier());
    }

    /** The regions whose last entry is in an earlier block than the one being filled. */
    ghost function Earlier(): set<nat>
      reads this
    {
      set r | r in regions && r in since && since[r] < |hist|
    }

    /** How far the oldest entry of use is from the newest block. */
    ghost function Left(): nat
      reads this
    {
      if oldest <= |hist| && newest.oldestEntry <= |(hist + [newest])[oldest].entries|
      then |(hist + [newest])[oldest].entries| - newest.oldestEntry else 0
    }

    /** Retires entries and blocks for as long as there is room to log again what must be kept. */
    method RetireOldEntries()
      requires Sound() && newest.entries != []
      modifies this`newest, this`regions, this`since, this`oldest
      ensures Sound() && newest.entries != [] && regions.Keys == old(regions).Keys
      ensures forall s :: Holders(s) == old(Holders(s))
      ensures newest.oldestBlock == newestBlock || |newest.entries| == max
      ensures |newest.entries| + |Earlier()| == |old(newest).entries| + |old(Earlier())|
    {
      hide OnDisk, Saved, Tracks;
      var more := true;
      while more
        invariant Sound() && newest.entries != [] && regions.Keys == old(regions).Keys
        invariant more || newest.oldestBlock == newestBlock || |newest.entries| == max
        invariant |newest.entries| + |Earlier()| == |old(newest).entries| + |old(Earlier())|
        invariant forall s :: Holders(s) == old(Holders(s))
        decreases more, max - |newest.entries|, |hist| - oldest, Left()
      {
        TracksKeys(hist, newest, oldest, since, regions, size);
        SkipBlocks();
        more := newest.oldestBlock != newestBlock && |newest.entries| < max;
        if more {
          RetireOldEntry();
        }
      }
    }

    /** Retires blocks that are used up. */
    method SkipBlocks()
      requires Sound() && newest.entries != []
      modifies this`newest, this`oldest
      ensures Sound() && newest.entries == old(newest.entries) && oldest >= old(oldest) && (oldest == old(oldest) ==> newest == old(newest))
      ensures oldest <= |hist| && newest.oldestEntry < |(hist + [newest])[oldest].entries|
      ensures (newest.oldestBlock == newestBlock) == (oldest == |hist|)
    {
      hide OnDisk, Saved;
      var entries := OldEntries();
      while newest.oldestEntry == |entries|
        invariant Sound() && newest.entries == old(newest.entries) && oldest >= old(oldest) && (oldest == old(oldest) ==> newest == old(newest))
        invariant oldest <= |hist| && entries == (hist + [newest])[oldest].entries && (newest.oldestBlock == newestBlock) == (oldest == |hist|)
        decreases |hist| - oldest
      {
        RetireOldBlock();
        entries := OldEntries();
      }
    }

    /** Writes the newest block and only then answers the clients waiting for it. */
    method Advance() returns (sent: seq<nat>)
      requires Sound() && |hist| + 1 < oldest + size
      modifies this`disk, this`newest, this`newestBlock, this`grants, this`hist, this`committed, this`saved
      ensures Sound() && newest.entries == [] && hist == old(hist) + [old(newest)] && committed == regions.Keys
      ensures sent == old(grants) && grants == []
    {
      hide OnDisk, Saved, Tracks;
      TracksKeys(hist, newest, oldest, since, regions, size);
      DiskSize(disk, hist, size);
      OnDiskNext(disk, hist, size, newest);
      SavedNow(hist, newest, oldest, since, regions, size);
      var now := Block(newest.sequence + 1, newest.oldestBlock, newest.oldestEntry, []);
      TracksAdvance(hist, newest, oldest, since, regions, size, now);
      NextSlot(|hist|, size);
      disk := disk[newestBlock := newest];
      sent, grants := grants, [];
      hist, saved, committed := hist + [newest], oldest, regions.Keys;
      newestBlock := if newestBlock + 1 == size then 0 else newestBlock + 1;
      newest := now;
    }

    /** Writes the newest block unless the next one is still of use: then the server is stuck. */
    method TryToAdvance() returns (sent: seq<nat>)
      requires Sound() && !stuck
      modifies this`disk, this`newest, this`newestBlock, this`grants, this`hist, this`committed, this`saved, this`stuck
      ensures Valid() && (!stuck ==> committed == regions.Keys && sent == old(grants) && grants == [])
      ensures if stuck then sent == [] && committed == old(committed) && hist == old(hist) && newest == old(newest)
        else newest.entries == [] && hist == old(hist) + [old(newest)]
      ensures sent + grants == old(grants)
      ensures stuck <==> (old(newestBlock) + 1) % size == old(newest.oldestBlock)
    {
      hide OnDisk, Saved, Tracks, Began;
      TracksKeys(hist, newest, oldest, since, regions, size);
      RoomAhead(hist, newest, oldest, since, regions, size);
      NextSlot(|hist|, size);
      ModIs(newestBlock, 0, newestBlock, size);
      NextSlot(newestBlock, size);
      if (newestBlock + 1) % size != newest.oldestBlock {
        sent := Advance();
        BeganNow(committed);
        return;
      }
      stuck, sent := true, [];
    }

    method AdvanceIfFull() returns (sent: seq<nat>)
      requires Sound() && !stuck && Began(newest.entries, regions.Keys, committed)
      modifies this`disk, this`newest, this`newestBlock, this`grants, this`hist, this`committed, this`saved, this`stuck
      ensures Valid() && forall r :: r in sent && r in regions ==> r in committed
      ensures forall r :: r in old(committed) && r in regions ==> r in committed
      ensures |old(newest).entries| < max ==> newest == old(newest) && committed == old(committed) && !stuck
      ensures committed == old(committed) || committed == regions.Keys
      ensures sent + grants == old(grants)
      ensures stuck <==> |old(newest).entries| == max && (old(newestBlock) + 1) % size == old(newest.oldestBlock)
      ensures !stuck ==> |newest.entries| <= |old(newest).entries|
    {
      hide OnDisk, Saved, Tracks, Began;
      sent := [];
      if |newest.entries| == max {
        sent := TryToAdvance();
      }
    }

    /** Retires what it can and writes the newest block, if there is anything in it. */
    method Commit() returns (sent: seq<nat>)
      requires Valid() && !stuck
      modifies this
      ensures Valid() && forall r :: r in sent && r in regions ==> r in committed
      ensures forall s :: Holders(s) == old(Holders(s))
      ensures if stuck then committed == old(committed) else committed == regions.Keys && grants == [] && newest.entries == []
      ensures sent + grants == old(grants)
      ensures stuck ==> |newest.entries| == max && max <= |old(newest).entries| + |regions|
    {
      hide OnDisk, Saved, Tracks, Began;
      sent := [];
      if newest.entries != [] {
        Crowd();
        RetireOldEntries();
        NotItself();
        assert |regions| == |regions.Keys| == |old(regions).Keys| == |old(regions)|;
        sent := TryToAdvance();
      } else {
        BeganEmpty(regions.Keys, committed);
      }
    }

    /** At most the regions held have entries in earlier blocks. */
    lemma Crowd()
      ensures |Earlier()| <= |regions|
    {
      SubsetSize(Earlier(), regions.Keys);
    }

    /** The block being filled is not the one after it. */
    lemma NotItself()
      requires Sound()
      ensures newest.oldestBlock == newestBlock ==> (newestBlock + 1) % size != newest.oldestBlock
    {
      hide Saved, Tracks;
      DiskSize(disk, hist, size);
      ModIs(newestBlock, 0, newestBlock, size);
      NextSlot(newestBlock, size);
    }

    /** A client wants to write. If nobody holds the region, the answer waits for the log. If
        somebody does, the answer goes out at once: a crash would find the region just if its entry
        is in an earlier block than the one still to be written, or the first word on it in that
        block says clean. */
    method Request(r: nat) returns (at_once: bool, sent: seq<nat>)
      requires Valid() && !stuck
      modifies this
      ensures Valid() && (at_once <==> r in old(regions))
      ensures at_once ==> (r in old(committed) <==> old(regions)[r].block != old(newestBlock) || FirstClean(old(newest).entries, r))
      ensures |old(newest).entries| + 1 < max ==> committed == old(committed) && !stuck && |newest.entries| <= |old(newest).entries| + 1
      ensures forall s :: s in sent && s in regions ==> s in committed
      ensures forall s :: Holders(s) == old(Holders(s)) + if s == r then 1 else 0
      ensures committed == old(committed) || committed == regions.Keys
      ensures sent + grants == old(grants) + if at_once then [] else [r]
      ensures !stuck ==> |newest.entries| <= |old(newest).entries| + 1
      ensures |old(newest).entries| + 1 < max ==> !stuck
    {
      hide OnDisk, Saved, Tracks, Began;
      if r in regions {
        EarlierBlock(hist, newest, oldest, since, regions, size, r);
        SafeAtOnce(newest.entries, regions.Keys, committed, r);
      }
      var logged := Get(r);
      at_once := !logged;
      if logged {
        grants := grants + [r];
      }
      sent := AdvanceIfFull();
    }

    /** A client is done writing. */
    method Release(r: nat) returns (sent: seq<nat>)
      requires Valid() && !stuck
      modifies this
      ensures Valid() && forall s :: s in sent && s in regions ==> s in committed
      ensures forall s :: Holders(s) == old(Holders(s)) - if s == r && old(Holders(s)) > 0 then 1 else 0
      ensures committed == old(committed) || committed == regions.Keys
      ensures sent + grants == old(grants)
      ensures !stuck ==> |newest.entries| <= |old(newest).entries| + 1
      ensures |old(newest).entries| + 1 < max ==> !stuck
    {
      hide OnDisk, Saved, Tracks, Began;
      Put(r);
      sent := AdvanceIfFull();
    }

    /** One message, and who is answered. */
    method Handle(m: Message) returns (answer: Answer)
      requires Valid() && !stuck
      modifies this
      ensures Valid() && forall r :: Holders(r) == Shifted(m, r, old(Holders(r)))
      ensures committed == old(committed) || committed == regions.Keys
      ensures m.Idle? && !stuck ==> committed == regions.Keys && grants == []
      ensures answer.atOnce <==> m.RequestWrite? && m.region in old(regions)
      ensures forall r :: r in answer.sent && r in regions ==> r in committed
      ensures answer.sent + grants == old(grants) + if m.RequestWrite? && !answer.atOnce then [m.region] else []
      ensures Filling(m, max, |regions.Keys|, |old(newest).entries|, |newest.entries|, stuck)
    {
      hide OnDisk, Saved, Tracks, Began;
      var sent, atOnce := [], false;
      match m {
        case RequestWrite(r) => atOnce, sent := Request(r);
        case ReleaseWrite(r) => sent := Release(r);
        case Idle => sent := Commit();
      }
      answer := Answer(atOnce, sent);
    }

    /** Regions held are those that somebody holds. */
    lemma HeldBy()
      requires Sound()
      ensures forall r :: r in regions <==> Holders(r) > 0
    {
      hide OnDisk, Saved, Tracks;
      TracksKeys(hist, newest, oldest, since, regions, size);
    }

    /** Any run of messages, until the server is stuck. After message `k` a reader of the log, whenever
        the server stops, finds exactly the regions held after the first `at[k]` messages. They
        include everything up to the last time the server was idle, and every region whose holder
        was answered, unless too soon, and has held it since. No answer is lost or sent twice. If
        the server is idle often enough for the regions held, it is never stuck. */
    method Serve(messages: seq<Message>) returns (answers: seq<Answer>, ghost at: seq<nat>)
      requires Valid() && !stuck && regions == map[] && committed == {}
      modifies this
      ensures Valid() && |answers| <= |messages| && (|answers| < |messages| ==> stuck)
      ensures forall r :: Holders(r) == Balance(messages[..|answers|], r)
      ensures Dated(at, |answers|) && forall r :: r in committed <==> OnLog(messages, at[|answers|], r)
      ensures !stuck ==> IdleLogged(messages, |answers|, at[|answers|])
      ensures AllKept(messages, answers, at) && AtOnceWhenHeld(messages, answers)
      ensures AllSent(answers) + grants == old(grants) + Firsts(messages[..|answers|])
      ensures |answers| > 0 && messages[|answers| - 1].Idle? && !stuck ==> grants == []
      ensures old(newest.entries) == [] && Calm(messages, max) ==> !stuck && |answers| == |messages|
    {
      hide Calm, Lately, Filling, Sound, Began, AllKept, AtOnceWhenHeld, IdleLogged, Dated, OnLog, AllSent, Firsts, Balance, Shifted, Recalls, Sends;
      answers, at := [], [0];
      NoMessages(messages, grants, stuck);
      ghost var calm := newest.entries == [] && Calm(messages, max);
      while |answers| < |messages| && !stuck
        invariant |answers| <= |messages| && Valid() && |at| == |answers| + 1
        invariant forall r :: Holders(r) == Balance(messages[..|answers|], r)
        invariant Recalls(messages, answers, at, committed, stuck) && Sends(messages, answers, old(grants), grants, stuck)
        invariant calm ==> !stuck && |newest.entries| <= Lately(messages[..|answers|])
      {
        ghost var n, held, was, grants0, filled := |answers|, regions.Keys, committed, grants, |newest.entries|;
        HeldBy();
        var answer := Handle(messages[|answers|]);
        HeldBy();
        BalanceNext(messages, n);
        ghost var now := if committed != was || (messages[n].Idle? && !stuck) then n + 1 else at[n];
        if calm {
          CalmNext(messages, max, n, regions.Keys, filled, |newest.entries|, stuck);
        }
        RecallsNext(messages, answers, at, answer, now, held, regions.Keys, was, committed, stuck);
        SendsNext(messages, answers, answer, old(grants), grants0, grants, stuck);
        answers, at := answers + [answer], at + [now];
      }
      RecallsMeans(messages, answers, at, committed, stuck);
      SendsMeans(messages, answers, old(grants), grants, stuck);
    }
  }

  datatype Message = RequestWrite(region: nat) | ReleaseWrite(region: nat) | Idle

  /** How many hold a region after a message, if so many did before it; releases of what is not held do
      nothing. */
  function Shifted(m: Message, r: nat, before: nat): nat {
    match m
    case RequestWrite(s) => if s == r then before + 1 else before
    case ReleaseWrite(s) => if s == r && before > 0 then before - 1 else before
    case Idle => before
  }

  /** Requests for a region that have not been released. */
  function Balance(messages: seq<Message>, r: nat): nat {
    if messages == [] then 0 else Shifted(messages[|messages| - 1], r, Balance(messages[..|messages| - 1], r))
  }

  /** The regions that somebody holds. */
  ghost function HeldAfter(messages: seq<Message>): set<nat> {
    if messages == [] then {}
    else
      var before := HeldAfter(messages[..|messages| - 1]);
      match messages[|messages| - 1]
      case RequestWrite(r) => before + {r}
      case ReleaseWrite(r) => if Balance(messages, r) > 0 then before else before - {r}
      case Idle => before
  }

  lemma {:induction false} HeldMeans(messages: seq<Message>, r: nat)
    ensures r in HeldAfter(messages) <==> Balance(messages, r) > 0
  {
    if messages != [] {
      HeldMeans(messages[..|messages| - 1], r);
    }
  }

  lemma HeldIs(messages: seq<Message>, held: set<nat>)
    requires forall r :: r in held <==> Balance(messages, r) > 0
    ensures held == HeldAfter(messages)
  {
    forall r
      ensures r in held <==> r in HeldAfter(messages)
    {
      HeldMeans(messages, r);
    }
  }

  /** Messages since the server was last idle. */
  ghost function Lately(messages: seq<Message>): nat {
    if messages == [] || messages[|messages| - 1].Idle? then 0 else Lately(messages[..|messages| - 1]) + 1
  }

  /** Whenever the server is idle, the messages since the last time and the regions held are fewer than
      the entries a block takes. */
  ghost predicate Calm(messages: seq<Message>, max: nat) {
    && (forall k :: 0 <= k <= |messages| ==> Lately(messages[..k]) < max)
    && forall k :: 0 <= k < |messages| && messages[k].Idle? ==> Lately(messages[..k]) + |HeldAfter(messages[..k])| < max
  }

  /** How a message fills the newest block, and when the server may be stuck after it. */
  ghost predicate Filling(m: Message, max: nat, held: nat, before: nat, after: nat, stuck: bool) {
    if m.Idle? then if stuck then max <= before + held else after == 0
    else if stuck then max <= before + 1 else after <= before + 1
  }

  lemma CalmNext(messages: seq<Message>, max: nat, n: nat, held: set<nat>, before: nat, after: nat, stuck: bool)
    requires Calm(messages, max) && n < |messages| && before <= Lately(messages[..n])
    requires forall r :: r in held <==> Balance(messages[..n + 1], r) > 0
    requires Filling(messages[n], max, |held|, before, after, stuck)
    ensures !stuck && after <= Lately(messages[..n + 1])
  {
    hide Calm, Lately, HeldAfter;
    HeldIs(messages[..n + 1], held);
    CalmAt(messages, max, n);
  }

  lemma CalmAt(messages: seq<Message>, max: nat, n: nat)
    requires Calm(messages, max) && n < |messages|
    ensures Lately(messages[..n + 1]) == if messages[n].Idle? then 0 else Lately(messages[..n]) + 1
    ensures Lately(messages[..n + 1]) < max
    ensures messages[n].Idle? ==> Lately(messages[..n]) + |HeldAfter(messages[..n + 1])| < max
  {
    assert messages[..n + 1][..n] == messages[..n];
  }

  /** Who is answered after a message: its sender at once, or those whose regions are now on the log. */
  datatype Answer = Answer(atOnce: bool, sent: seq<nat>)

  /** After `k` messages the log tells of the first `at[k]` of them. */
  ghost predicate Dated(at: seq<nat>, n: nat) {
    |at| == n + 1 && (forall k :: 0 <= k <= n ==> at[k] <= k) && forall j, k :: 0 <= j <= k <= n ==> at[j] <= at[k]
  }

  /** A log that tells of the first `at` messages has the region. */
  ghost predicate OnLog(messages: seq<Message>, at: nat, r: nat) {
    at <= |messages| && Balance(messages[..at], r) > 0
  }

  /** Message `k` brings an answer for a region, after it was logged, or at once when the log had it. */
  ghost predicate Assured(messages: seq<Message>, answers: seq<Answer>, at: seq<nat>, k: nat, r: nat)
    requires k < |answers| <= |messages| && k < |at|
  {
    r in answers[k].sent || (answers[k].atOnce && messages[k] == RequestWrite(r) && OnLog(messages, at[k], r))
  }

  ghost predicate HeldSince(messages: seq<Message>, k: nat, j: nat, r: nat)
    requires j <= |messages|
  {
    forall i :: k < i <= j ==> Balance(messages[..i], r) > 0
  }

  /** A region for which an answer has come stays on the log while it is held. */
  ghost predicate AllKept(messages: seq<Message>, answers: seq<Answer>, at: seq<nat>)
    requires |answers| <= |messages| && |at| == |answers| + 1
  {
    forall k, j, r :: 0 <= k < j <= |answers| && Assured(messages, answers, at, k, r) && HeldSince(messages, k, j, r) ==> OnLog(messages, at[j], r)
  }

  ghost predicate AtOnceWhenHeld(messages: seq<Message>, answers: seq<Answer>)
    requires |answers| <= |messages|
  {
    forall k :: 0 <= k < |answers| ==> (answers[k].atOnce <==> messages[k].RequestWrite? && Balance(messages[..k], messages[k].region) > 0)
  }

  /** The log tells of every message up to the last time that the server was idle. */
  ghost predicate IdleLogged(messages: seq<Message>, n: nat, at: nat)
    requires n <= |messages|
  {
    forall k :: 0 <= k < n && messages[k].Idle? ==> k < at
  }

  lemma IdleNext(messages: seq<Message>, n: nat, at: nat, now: nat)
    requires n < |messages| && IdleLogged(messages, n, at) && (now == n + 1 || (now == at && !messages[n].Idle?))
    ensures IdleLogged(messages, n + 1, now)
  {
  }

  lemma AtOnceNext(messages: seq<Message>, answers: seq<Answer>, answer: Answer)
    requires |answers| < |messages| && AtOnceWhenHeld(messages, answers)
    requires var m := messages[|answers|]; answer.atOnce <==> m.RequestWrite? && Balance(messages[..|answers|], m.region) > 0
    ensures AtOnceWhenHeld(messages, answers + [answer])
  {
    hide Balance;
  }

  function AllSent(answers: seq<Answer>): seq<nat> {
    if answers == [] then [] else AllSent(answers[..|answers| - 1]) + answers[|answers| - 1].sent
  }

  /** The requests that find nobody holding their region, in order. */
  function Firsts(messages: seq<Message>): seq<nat> {
    if messages == [] then []
    else
      var n := |messages| - 1;
      var m := messages[n];
      Firsts(messages[..n]) + if m.RequestWrite? && Balance(messages[..n], m.region) == 0 then [m.region] else []
  }

  /** What a run of messages has made of the log so far, and of the answers. */
  ghost predicate Recalls(messages: seq<Message>, answers: seq<Answer>, at: seq<nat>, committed: set<nat>, stuck: bool)
    requires |answers| <= |messages| && |at| == |answers| + 1
  {
    var n := |answers|;
    && Dated(at, n) && (forall r :: r in committed <==> OnLog(messages, at[n], r))
    && (!stuck ==> IdleLogged(messages, n, at[n])) && AllKept(messages, answers, at) && AtOnceWhenHeld(messages, answers)
  }

  ghost predicate Sends(messages: seq<Message>, answers: seq<Answer>, first: seq<nat>, grants: seq<nat>, stuck: bool)
    requires |answers| <= |messages|
  {
    && AllSent(answers) + grants == first + Firsts(messages[..|answers|])
    && (|answers| > 0 && messages[|answers| - 1].Idle? && !stuck ==> grants == [])
  }

  lemma NoMessages(messages: seq<Message>, grants: seq<nat>, stuck: bool)
    ensures Recalls(messages, [], [0], {}, stuck) && Sends(messages, [], grants, grants, stuck)
    ensures forall r :: Balance(messages[..0], r) == 0
  {
  }

  lemma RecallsMeans(messages: seq<Message>, answers: seq<Answer>, at: seq<nat>, committed: set<nat>, stuck: bool)
    requires |answers| <= |messages| && |at| == |answers| + 1 && Recalls(messages, answers, at, committed, stuck)
    ensures Dated(at, |answers|) && forall r :: r in committed <==> OnLog(messages, at[|answers|], r)
    ensures (!stuck ==> IdleLogged(messages, |answers|, at[|answers|])) && AllKept(messages, answers, at) && AtOnceWhenHeld(messages, answers)
  {
  }

  lemma SendsMeans(messages: seq<Message>, answers: seq<Answer>, first: seq<nat>, grants: seq<nat>, stuck: bool)
    requires |answers| <= |messages| && Sends(messages, answers, first, grants, stuck)
    ensures AllSent(answers) + grants == first + Firsts(messages[..|answers|])
    ensures |answers| > 0 && messages[|answers| - 1].Idle? && !stuck ==> grants == []
  {
  }

  lemma RecallsNext(messages: seq<Message>, answers: seq<Answer>, at: seq<nat>, answer: Answer, now: nat, before: set<nat>, held: set<nat>, was: set<nat>, committed: set<nat>, stuck: bool)
    requires |answers| < |messages| && |at| == |answers| + 1 && Recalls(messages, answers, at, was, false)
    requires forall r :: r in before <==> Balance(messages[..|answers|], r) > 0
    requires forall r :: r in held <==> Balance(messages[..|answers| + 1], r) > 0
    requires committed == was || committed == held
    requires var m := messages[|answers|];
      && (m.Idle? && !stuck ==> committed == held) && (answer.atOnce <==> m.RequestWrite? && m.region in before)
      && now == if committed != was || (m.Idle? && !stuck) then |answers| + 1 else at[|answers|]
    requires forall r :: r in answer.sent && r in held ==> r in committed
    ensures Recalls(messages, answers + [answer], at + [now], committed, stuck)
  {
    hide AllKept, AtOnceWhenHeld, IdleLogged, Dated, OnLog, Balance;
    LogNow(messages, |answers|, held);
    KeptNext(messages, answers, at, answer, now, held, committed);
    AtOnceNext(messages, answers, answer);
    if !stuck {
      IdleNext(messages, |answers|, at[|answers|], now);
    }
    DatedNext(at, |answers|, now);
  }

  lemma DatedNext(at: seq<nat>, n: nat, now: nat)
    requires Dated(at, n) && now in {at[n], n + 1}
    ensures Dated(at + [now], n + 1)
  {
  }

  lemma BalanceNext(messages: seq<Message>, n: nat)
    requires n < |messages|
    ensures forall r :: Balance(messages[..n + 1], r) == Shifted(messages[n], r, Balance(messages[..n], r))
  {
    assert messages[..n + 1][..n] == messages[..n];
  }

  lemma LogNow(messages: seq<Message>, n: nat, held: set<nat>)
    requires n < |messages| && forall r :: r in held <==> Balance(messages[..n + 1], r) > 0
    ensures forall r :: r in held <==> OnLog(messages, n + 1, r)
  {
  }

  lemma KeptNext(messages: seq<Message>, answers: seq<Answer>, at: seq<nat>, answer: Answer, now: nat, held: set<nat>, committed: set<nat>)
    requires |answers| < |messages| && |at| == |answers| + 1 && AllKept(messages, answers, at)
    requires forall r :: r in held <==> Balance(messages[..|answers| + 1], r) > 0
    requires forall r :: r in committed <==> OnLog(messages, now, r)
    requires forall r :: r in held && (r in answer.sent || OnLog(messages, at[|answers|], r)) ==> r in committed
    ensures AllKept(messages, answers + [answer], at + [now])
  {
    hide Balance, OnLog;
    var n, answers', at' := |answers|, answers + [answer], at + [now];
    forall k, j, r | 0 <= k < j <= n + 1 && Assured(messages, answers', at', k, r) && HeldSince(messages, k, j, r)
      ensures OnLog(messages, at'[j], r)
    {
      assert k < n ==> answers'[k] == answers[k];
      assert at'[k] == at[k];
      if j == n + 1 {
        assert Balance(messages[..j], r) > 0;
        if k < n {
          assert Assured(messages, answers, at, k, r) && HeldSince(messages, k, n, r);
        }
      } else {
        assert Assured(messages, answers, at, k, r);
        assert at'[j] == at[j];
      }
    }
  }

  lemma SendsNext(messages: seq<Message>, answers: seq<Answer>, answer: Answer, first: seq<nat>, before: seq<nat>, after: seq<nat>, stuck: bool)
    requires |answers| < |messages| && Sends(messages, answers, first, before, false)
    requires var m := messages[|answers|];
      && answer.sent + after == before + (if m.RequestWrite? && Balance(messages[..|answers|], m.region) == 0 then [m.region] else [])
      && (m.Idle? && !stuck ==> after == [])
    ensures Sends(messages, answers + [answer], first, after, stuck)
  {
    hide AllSent, Firsts, Balance;
    SentNext(answers, answer, messages, |answers|, first, before, after);
  }

  lemma SentNext(answers: seq<Answer>, answer: Answer, messages: seq<Message>, n: nat, first: seq<nat>, before: seq<nat>, after: seq<nat>)
    requires n < |messages| && AllSent(answers) + before == first + Firsts(messages[..n])
    requires var m := messages[n];
      answer.sent + after == before + if m.RequestWrite? && Balance(messages[..n], m.region) == 0 then [m.region] else []
    ensures AllSent(answers + [answer]) + after == first + Firsts(messages[..n + 1])
  {
    var m := messages[n];
    var more := if m.RequestWrite? && Balance(messages[..n], m.region) == 0 then [m.region] else [];
    assert messages[..n + 1][..n] == messages[..n];
    assert (answers + [answer])[..|answers|] == answers;
    assert Firsts(messages[..n + 1]) == Firsts(messages[..n]) + more;
    calc {
      AllSent(answers + [answer]) + after;
      (AllSent(answers) + answer.sent) + after;
      AllSent(answers) + (answer.sent + after);
      AllSent(answers) + (before + more);
      (AllSent(answers) + before) + more;
      first + Firsts(messages[..n + 1]);
    }
  }

  /** Two requests for the same region before the log is written: the second is answered although
      a crash would find the region clean. */
  method AnsweredTooSoon() returns (at_once: bool, held: set<nat>)
    ensures at_once && 7 !in held
  {
    hide OnDisk, Saved, Tracks, Began;
    var server := new Server(10, 5);
    var sent;
    at_once, sent := server.Request(7);
    assert server.Holders(7) > 0;
    at_once, sent := server.Request(7);
    held := server.Crash(false);
  }

  /** The block to be written next is of use no more. */
  lemma RoomAhead(hist: seq<Block>, newest: Block, oldest: nat, since: map<nat, nat>, regions: map<nat, Region>, size: nat)
    requires Tracks(hist, newest, oldest, since, regions, size)
    ensures newest.oldestBlock == oldest % size
    ensures (|hist| + 1) % size != oldest % size ==> |hist| + 1 < oldest + size
  {
    if |hist| + 1 == oldest + size {
      var k := oldest / size;
      assert oldest == k * size + oldest % size;
      assert |hist| + 1 == (k + 1) * size + oldest % size;
      ModIs(|hist| + 1, k + 1, oldest % size, size);
    }
  }

  lemma SavedNow(hist: seq<Block>, newest: Block, oldest: nat, since: map<nat, nat>, regions: map<nat, Region>, size: nat)
    requires Tracks(hist, newest, oldest, since, regions, size) && |hist| + 1 < oldest + size
    ensures Saved(hist + [newest], oldest, regions.Keys, size)
  {
    hide Tells, Flat, Offset;
    var all := hist + [newest];
    assert Where(all, since, regions).Keys == regions.Keys;
    Recovered(Flat(all), Offset(all, oldest) + newest.oldestEntry, Where(all, since, regions));
  }

  lemma EarlierBlock(hist: seq<Block>, newest: Block, oldest: nat, since: map<nat, nat>, regions: map<nat, Region>, size: nat, r: nat)
    requires Tracks(hist, newest, oldest, since, regions, size) && r in regions
    ensures since.Keys == regions.Keys
    ensures if regions[r].block != |hist| % size then since[r] < |hist| else Spoken(newest.entries, r)
  {
    hide Offset, Flat;
    var all, q := hist + [newest], since[r];
    assert Placed(all, oldest, q, regions[r], size);
    if q % size == |hist| % size {
      SameSlot(q, |hist|, size);
      var e := regions[r].entry;
      EntryIn(all, q, e);
      assert Where(all, since, regions)[r] == Offset(all, q) + e;
      assert newest.entries[e] == Dirty(r);
    }
  }

  lemma SafeAtOnce(entries: seq<LogEntry>, held: set<nat>, committed: set<nat>, r: nat)
    requires Began(entries, held, committed)
    ensures Spoken(entries, r) ==> (r in committed <==> FirstClean(entries, r))
    ensures FirstClean(entries, r) ==> r in committed
  {
    FirstAppend(entries, Clean(r), r);
  }

  lemma TracksKeys(hist: seq<Block>, newest: Block, oldest: nat, since: map<nat, nat>, regions: map<nat, Region>, size: nat)
    requires Tracks(hist, newest, oldest, since, regions, size)
    ensures since.Keys == regions.Keys && size >= 2 && oldest <= |hist| < oldest + size
    ensures forall r :: r in regions ==> regions[r].count > 0 && since[r] <= |hist|
  {
    var all := hist + [newest];
    forall r | r in regions
      ensures regions[r].count > 0 && since[r] <= |hist|
    {
      assert Placed(all, oldest, since[r], regions[r], size);
    }
  }

  lemma {:induction false} AllBlank(blocks: seq<Block>)
    requires forall q :: 0 <= q < |blocks| ==> blocks[q].entries == []
    ensures Flat(blocks) == []
  {
    if blocks != [] {
      AllBlank(blocks[..|blocks| - 1]);
    }
  }

  lemma BlankSound(blank: seq<Block>, size: nat)
    requires size >= 2 && |blank| == size && forall i :: 0 <= i < size ==> blank[i] == Block(i, i, 0, [])
    ensures OnDisk(blank, blank, size) && size % size == 0 && Saved(blank, size - 1, {}, size)
    ensures Tracks(blank, Block(size, size - 1, 0, []), size - 1, map[], map[], size)
  {
    var newest := Block(size, size - 1, 0, []);
    AllBlank(blank);
    AllBlank(blank + [newest]);
    AllBlank(blank[..size - 1]);
    AllBlank((blank + [newest])[..size - 1]);
    forall q | 0 <= q < size
      ensures q % size == q
    {
      ModIs(q, 0, q, size);
    }
    ModIs(size, 1, 0, size);
  }
}
