/** Writes to the origin wait for snapshot clients that still read the origin's chunks. */
module SnapLocks {
  import opened Exceptions
  import opened Sharing
  import opened Ledger
  import opened Volume
  import opened Devices
  import opened Sequences
  import TreeSpec
  import TreeLookup
  import Snapshots

  /** Clients reading a chunk of the origin, and writes waiting for them. */
  datatype Lock = Lock(holds: seq<nat>, waits: seq<nat>)

  type Locks = map<nat, Lock>

  /** A write that waits: for how many records, and the answer it will get for which chunks. */
  datatype Pending = Pending(count: nat, ok: bool, chunks: seq<nat>)

  datatype Reply = Reply(id: nat, ok: bool, chunks: seq<nat>)

  /** How many records of write `id` are at chunk `c`. */
  ghost function Waiting(locks: Locks, c: nat, id: nat): nat {
    if c in locks then multiset(locks[c].waits)[id] else 0
  }

  ghost predicate Held(locks: Locks, c: nat) {
    c in locks && locks[c].holds != []
  }

  /** A write waits at every one of its chunks that is being read. */
  ghost predicate Covered(locks: Locks, id: nat, chunks: seq<nat>) {
    forall i :: 0 <= i < |chunks| && Held(locks, chunks[i]) ==> id in locks[chunks[i]].waits
  }

  /** The count of a write is the number of its records, and one more while it is being set up. */
  ghost predicate Counted(pending: map<nat, Pending>, records: map<nat, multiset<nat>>, setup: set<nat>) {
    && records.Keys == pending.Keys
    && forall id :: id in pending ==> pending[id].count == |records[id]| + if id in setup then 1 else 0
  }

  /** The records are those found at the locks. */
  ghost predicate Agree(locks: Locks, records: map<nat, multiset<nat>>) {
    forall id, c :: id in records ==> records[id][c] == Waiting(locks, c, id)
  }

  ghost predicate Known(locks: Locks, ids: set<nat>) {
    forall c, i :: c in locks && 0 <= i < |locks[c].waits| ==> locks[c].waits[i] in ids
  }

  /** A write waits for no chunks but its own. */
  ghost predicate Own(locks: Locks, pending: map<nat, Pending>, setup: set<nat>) {
    forall c, i :: c in locks && 0 <= i < |locks[c].waits| ==>
      locks[c].waits[i] in setup || (locks[c].waits[i] in pending && c in pending[locks[c].waits[i]].chunks)
  }

  /** Write `id` waits only at chunks that it has got to so far. */
  ghost predicate Mine(locks: Locks, id: nat, done: seq<nat>) {
    forall c :: c in locks && id in locks[c].waits ==> c in done
  }

  ghost predicate AllCovered(locks: Locks, pending: map<nat, Pending>) {
    forall id :: id in pending ==> Covered(locks, id, pending[id].chunks)
  }

  ghost predicate Matched(locks: Locks, pending: map<nat, Pending>, records: map<nat, multiset<nat>>, setup: set<nat>) {
    && Counted(pending, records, setup) && Agree(locks, records) && Known(locks, pending.Keys) && AllCovered(locks, pending)
    && Own(locks, pending, setup)
  }

  /** Locks that are held still have the waits they had. */
  ghost predicate Weaker(locks: Locks, locks': Locks) {
    forall c :: Held(locks', c) ==> Held(locks, c) && forall i :: i in locks[c].waits ==> i in locks'[c].waits
  }

  lemma CoveredWeaker(locks: Locks, locks': Locks, id: nat, chunks: seq<nat>)
    requires Covered(locks, id, chunks) && Weaker(locks, locks')
    ensures Covered(locks', id, chunks)
  {
  }

  lemma AllCoveredWeaker(locks: Locks, locks': Locks, pending: map<nat, Pending>, pending': map<nat, Pending>)
    requires AllCovered(locks, pending) && Weaker(locks, locks')
    requires forall id :: id in pending' ==> id in pending && pending'[id].chunks == pending[id].chunks
    ensures AllCovered(locks', pending')
  {
    hide Covered, Weaker;
    forall id | id in pending'
      ensures Covered(locks', id, pending'[id].chunks)
    {
      CoveredWeaker(locks, locks', id, pending[id].chunks);
    }
  }

  lemma NoRecords(locks: Locks, pending: map<nat, Pending>, records: map<nat, multiset<nat>>, id: nat)
    requires Matched(locks, pending, records, {}) && id in pending && pending[id].count == 0
    ensures forall c :: c in locks ==> id !in locks[c].waits
    ensures forall i :: 0 <= i < |pending[id].chunks| ==> !Held(locks, pending[id].chunks[i])
  {
    hide Known;
    forall c | c in locks
      ensures id !in locks[c].waits
    {
      assert records[id][c] == Waiting(locks, c, id);
    }
    assert Covered(locks, id, pending[id].chunks);
  }

  // One more record

  function WithWait(lock: Lock, id: nat): Lock {
    lock.(waits := [id] + lock.waits)
  }

  lemma WaitAdded(locks: Locks, pending: map<nat, Pending>, records: map<nat, multiset<nat>>, setup: set<nat>, id: nat, c: nat)
    requires Matched(locks, pending, records, setup) && id in pending && id in setup && c in locks
    ensures var p := pending[id];
      Matched(locks[c := WithWait(locks[c], id)], pending[id := p.(count := p.count + 1)], records[id := records[id] + multiset{c}], setup)
    ensures id in WithWait(locks[c], id).waits && Weaker(locks, locks[c := WithWait(locks[c], id)])
  {
    hide Covered, Known, Agree, AllCovered, Own;
    var p := pending[id];
    WaitOwn(locks, pending, setup, id, c, p.(count := p.count + 1));
    var locks', pending', records' := locks[c := WithWait(locks[c], id)], pending[id := p.(count := p.count + 1)], records[id := records[id] + multiset{c}];
    assert pending'.Keys == pending.Keys && records'.Keys == records.Keys;
    WaitAgrees(locks, records, id, c);
    WaitKnown(locks, pending.Keys, id, c);
    assert WithWait(locks[c], id).waits[0] == id;
    WaitWeaker(locks, id, c);
    AllCoveredWeaker(locks, locks', pending, pending');
  }

  lemma WaitWeaker(locks: Locks, id: nat, c: nat)
    requires c in locks
    ensures Weaker(locks, locks[c := WithWait(locks[c], id)])
  {
    var w := WithWait(locks[c], id).waits;
    forall i | i in locks[c].waits
      ensures i in w
    {
      var j :| 0 <= j < |locks[c].waits| && locks[c].waits[j] == i;
      assert w[j + 1] == i;
    }
  }

  lemma WaitOwn(locks: Locks, pending: map<nat, Pending>, setup: set<nat>, id: nat, c: nat, w: Pending)
    requires Own(locks, pending, setup) && c in locks && id in setup && id in pending && w.chunks == pending[id].chunks
    ensures Own(locks[c := WithWait(locks[c], id)], pending[id := w], setup)
  {
  }

  lemma WaitKnown(locks: Locks, ids: set<nat>, id: nat, c: nat)
    requires Known(locks, ids) && c in locks && id in ids
    ensures Known(locks[c := WithWait(locks[c], id)], ids)
  {
  }

  lemma WaitAgrees(locks: Locks, records: map<nat, multiset<nat>>, id: nat, c: nat)
    requires Agree(locks, records) && c in locks && id in records
    ensures Agree(locks[c := WithWait(locks[c], id)], records[id := records[id] + multiset{c}])
  {
    var locks', records' := locks[c := WithWait(locks[c], id)], records[id := records[id] + multiset{c}];
    assert multiset([id] + locks[c].waits) == multiset{id} + multiset(locks[c].waits);
    forall i, d | i in records'
      ensures records'[i][d] == Waiting(locks', d, i)
    {
      assert records[i][d] == Waiting(locks, d, i);
    }
  }

  // One record less

  function FirstTaken(lock: Lock): Lock
    requires lock.waits != []
  {
    lock.(waits := lock.waits[1..])
  }

  /** A record taken from a lock that nobody holds. */
  lemma WaitTaken(locks: Locks, pending: map<nat, Pending>, records: map<nat, multiset<nat>>, c: nat)
    requires Matched(locks, pending, records, {}) && c in locks && locks[c].holds == [] && locks[c].waits != []
    ensures var id := locks[c].waits[0];
      && id in pending && id in records && pending[id].count > 0
      && var p := pending[id];
      Matched(locks[c := FirstTaken(locks[c])], pending[id := p.(count := p.count - 1)], records[id := records[id] - multiset{c}], {})
  {
    assert records.Keys == pending.Keys;
    hide Covered, Known, AllCovered, Agree, Weaker, Counted, Own;
    var id := locks[c].waits[0];
    FirstKnown(locks, pending.Keys, c);
    CountedLess(pending, records, id, c, locks);
    var p := pending[id];
    TakenOwn(locks, pending, c, id, p.(count := p.count - 1));
    var locks', pending' := locks[c := FirstTaken(locks[c])], pending[id := p.(count := p.count - 1)];
    assert pending'.Keys == pending.Keys;
    TakenKnown(locks, pending.Keys, c);
    TakenWeaker(locks, c);
    AllCoveredWeaker(locks, locks', pending, pending');
  }

  lemma FirstKnown(locks: Locks, ids: set<nat>, c: nat)
    requires Known(locks, ids) && c in locks && locks[c].waits != []
    ensures locks[c].waits[0] in ids
  {
  }

  lemma TakenWeaker(locks: Locks, c: nat)
    requires c in locks && locks[c].holds == [] && locks[c].waits != []
    ensures Weaker(locks, locks[c := FirstTaken(locks[c])])
  {
  }

  lemma CountedLess(pending: map<nat, Pending>, records: map<nat, multiset<nat>>, id: nat, c: nat, locks: Locks)
    requires Counted(pending, records, {}) && id in pending && Agree(locks, records)
    requires c in locks && locks[c].waits != [] && locks[c].waits[0] == id
    ensures pending[id].count > 0 && Agree(locks[c := FirstTaken(locks[c])], records[id := records[id] - multiset{c}])
    ensures Counted(pending[id := pending[id].(count := pending[id].count - 1)], records[id := records[id] - multiset{c}], {})
  {
    hide Agree;
    TakenAgrees(locks, records, c);
    OneLess(records[id], c);
  }

  lemma OneLess(m: multiset<nat>, c: nat)
    requires c in m
    ensures |m| > 0 && |m - multiset{c}| == |m| - 1
  {
    assert m == (m - multiset{c}) + multiset{c};
  }

  lemma TakenOwn(locks: Locks, pending: map<nat, Pending>, c: nat, id: nat, w: Pending)
    requires Own(locks, pending, {}) && c in locks && locks[c].waits != [] && id in pending && w.chunks == pending[id].chunks
    ensures Own(locks[c := FirstTaken(locks[c])], pending[id := w], {})
  {
  }

  lemma TakenKnown(locks: Locks, ids: set<nat>, c: nat)
    requires Known(locks, ids) && c in locks && locks[c].waits != []
    ensures Known(locks[c := FirstTaken(locks[c])], ids)
  {
  }

  lemma TakenAgrees(locks: Locks, records: map<nat, multiset<nat>>, c: nat)
    requires Agree(locks, records) && c in locks && locks[c].waits != [] && locks[c].waits[0] in records
    ensures var id := locks[c].waits[0];
      c in records[id] && Agree(locks[c := FirstTaken(locks[c])], records[id := records[id] - multiset{c}])
  {
    var id, rest := locks[c].waits[0], locks[c].waits[1..];
    var locks', records' := locks[c := FirstTaken(locks[c])], records[id := records[id] - multiset{c}];
    assert locks[c].waits == [id] + rest;
    assert multiset(locks[c].waits) == multiset{id} + multiset(rest);
    assert records[id][c] == Waiting(locks, c, id);
    forall i, d | i in records'
      ensures records'[i][d] == Waiting(locks', d, i)
    {
      assert records[i][d] == Waiting(locks, d, i);
    }
  }

  /** A write that waits no more. */
  lemma WriteGone(locks: Locks, pending: map<nat, Pending>, records: map<nat, multiset<nat>>, id: nat)
    requires Matched(locks, pending, records, {}) && id in pending && pending[id].count == 0
    ensures Matched(locks, pending - {id}, records - {id}, {})
  {
    NoRecords(locks, pending, records, id);
    hide Covered;
    assert (records - {id}).Keys == (pending - {id}).Keys == pending.Keys - {id};
    assert Known(locks, pending.Keys - {id});
  }

  // Readers

  /** Changing who holds a lock changes no record. */
  lemma HoldsChanged(locks: Locks, pending: map<nat, Pending>, records: map<nat, multiset<nat>>, locks': Locks)
    requires Matched(locks, pending, records, {}) && Weaker(locks, locks')
    requires forall c, id :: Waiting(locks', c, id) == Waiting(locks, c, id)
    requires forall c :: c in locks' && locks'[c].waits != [] ==> c in locks && locks[c].waits == locks'[c].waits
    ensures Matched(locks', pending, records, {})
  {
    hide Covered, Waiting, Weaker;
    AllCoveredWeaker(locks, locks', pending, pending);
  }

  /** Another reader. It may be the first one only if no write waits for the chunk. */
  lemma HoldAdded(locks: Locks, pending: map<nat, Pending>, records: map<nat, multiset<nat>>, c: nat, client: nat)
    requires Matched(locks, pending, records, {}) && (c in locks ==> locks[c].holds != [])
    requires c !in locks ==> forall id, i :: id in pending && 0 <= i < |pending[id].chunks| ==> pending[id].chunks[i] != c
    ensures var lock := if c in locks then locks[c] else Lock([], []);
      Matched(locks[c := lock.(holds := [client] + lock.holds)], pending, records, {})
  {
    var lock := if c in locks then locks[c] else Lock([], []);
    var locks' := locks[c := lock.(holds := [client] + lock.holds)];
    if c in locks {
      HoldsChanged(locks, pending, records, locks');
    } else {
      assert forall d, id :: Waiting(locks', d, id) == Waiting(locks, d, id);
      forall id | id in pending
        ensures Covered(locks', id, pending[id].chunks)
      {
        assert Covered(locks, id, pending[id].chunks);
      }
    }
  }

  // Answers

  ghost function Answered(replies: seq<Reply>): set<nat> {
    if replies == [] then {} else Answered(replies[..|replies| - 1]) + {replies[|replies| - 1].id}
  }

  /** Every write taken so far either waits or has been answered, once. */
  ghost predicate Once(replies: seq<Reply>, waiting: set<nat>, next: nat) {
    && (forall i, j :: 0 <= i < j < |replies| ==> replies[i].id != replies[j].id)
    && waiting !! Answered(replies) && forall id: nat :: id in waiting + Answered(replies) <==> id < next
  }

  lemma {:induction false} AnsweredBy(replies: seq<Reply>, i: nat)
    requires i < |replies|
    ensures replies[i].id in Answered(replies)
  {
    if i < |replies| - 1 {
      AnsweredBy(replies[..|replies| - 1], i);
    }
  }

  lemma {:induction false} AnsweredAt(replies: seq<Reply>, id: nat) returns (i: nat)
    requires id in Answered(replies)
    ensures i < |replies| && replies[i].id == id
  {
    if replies[|replies| - 1].id == id {
      i := |replies| - 1;
    } else {
      i := AnsweredAt(replies[..|replies| - 1], id);
    }
  }

  lemma OnceAnswered(replies: seq<Reply>, waiting: set<nat>, next: nat, r: Reply)
    requires Once(replies, waiting + {r.id}, next) && r.id !in waiting
    ensures Once(replies + [r], waiting, next)
  {
    var now := replies + [r];
    assert now[..|now| - 1] == replies;
    forall i, j | 0 <= i < j < |now|
      ensures now[i].id != now[j].id
    {
      AnsweredBy(replies, i);
    }
    forall id: nat
      ensures id in waiting + Answered(now) <==> id < next
    {
      assert id in waiting + Answered(now) <==> id in waiting + {r.id} + Answered(replies);
    }
  }

  lemma OnceTaken(replies: seq<Reply>, waiting: set<nat>, next: nat)
    requires Once(replies, waiting, next)
    ensures Once(replies, waiting + {next}, next + 1)
  {
    forall id: nat
      ensures id in waiting + {next} + Answered(replies) <==> id < next + 1
    {
      assert id in waiting + {next} + Answered(replies) <==> id == next || id in waiting + Answered(replies);
    }
    assert next !in waiting + Answered(replies);
  }

  /** No write waits for nothing. */
  ghost predicate Alive(pending: map<nat, Pending>) {
    forall id :: id in pending ==> pending[id].count > 0
  }

  /** A write that waits has a record at some lock: no answer is forgotten. */
  lemma WaitsSomewhere(locks: Locks, pending: map<nat, Pending>, records: map<nat, multiset<nat>>, id: nat) returns (c: nat)
    requires Matched(locks, pending, records, {}) && Alive(pending) && id in pending
    ensures c in locks && id in locks[c].waits && c in pending[id].chunks
  {
    hide Known, AllCovered;
    c :| c in records[id];
    assert records[id][c] == Waiting(locks, c, id);
  }

  // What a write may rely on

  /** All chunks of a write may be changed without any snapshot seeing it. */
  ghost predicate AllReady(es: Entries, mask: Mask, chunks: seq<nat>) {
    forall i :: 0 <= i < |chunks| ==> Ready(es, chunks[i], Origin, mask)
  }

  ghost predicate Permitted(es: Entries, mask: Mask, pending: map<nat, Pending>) {
    forall id :: id in pending ==> AllReady(es, mask, pending[id].chunks)
  }

  ghost predicate Locked(locks: Locks) {
    forall c :: c in locks ==> locks[c].holds != []
  }

  ghost predicate Unread(locks: Locks, chunks: seq<nat>) {
    forall k :: 0 <= k < |chunks| ==> !Held(locks, chunks[k])
  }

  /** Writes granted that their clients have still to do: none of their chunks is being read, and no
      snapshot needs the origin for them. */
  ghost predicate Safe(es: Entries, mask: Mask, locks: Locks, granted: map<nat, seq<nat>>) {
    forall id :: id in granted ==> AllReady(es, mask, granted[id]) && Unread(locks, granted[id])
  }

  /** What is read while it is held does not change. */
  ghost predicate Pinned(locks: Locks, pins: map<nat, Data>, origin: Disk) {
    pins.Keys == locks.Keys && forall c :: c in pins ==> pins[c] == At(origin, c)
  }

  lemma ReadyStays(es: Entries, mask: Mask, es': Entries, mask': Mask, chunks: seq<nat>)
    requires AllReady(es, mask, chunks) && Snapshots.StaysReady(es, mask, es', mask')
    ensures AllReady(es', mask', chunks)
  {
    hide Ready;
  }

  lemma PermittedStays(es: Entries, mask: Mask, es': Entries, mask': Mask, pending: map<nat, Pending>)
    requires Permitted(es, mask, pending) && Snapshots.StaysReady(es, mask, es', mask')
    ensures Permitted(es', mask', pending)
  {
    hide AllReady;
    forall id | id in pending
      ensures AllReady(es', mask', pending[id].chunks)
    {
      ReadyStays(es, mask, es', mask', pending[id].chunks);
    }
  }

  lemma SafeStays(es: Entries, mask: Mask, es': Entries, mask': Mask, locks: Locks, granted: map<nat, seq<nat>>)
    requires Safe(es, mask, locks, granted) && Snapshots.StaysReady(es, mask, es', mask')
    ensures Safe(es', mask', locks, granted)
  {
    hide AllReady, Unread;
    forall id | id in granted
      ensures AllReady(es', mask', granted[id])
    {
      ReadyStays(es, mask, es', mask', granted[id]);
    }
  }

  /** A chunk that a snapshot reads from the origin is none that a write may rely on. */
  lemma NotReady(es: Entries, mask: Mask, c: nat, bit: nat)
    requires bit in mask && Resolve(Lookup(es, c), bit) == OnOrigin
    ensures forall chunks, i :: AllReady(es, mask, chunks) && 0 <= i < |chunks| ==> chunks[i] != c
  {
    hide Lookup, Resolve, AllShares;
    SharedByOne(Lookup(es, c), bit);
    assert !Ready(es, c, Origin, mask);
    hide Ready;
  }

  lemma NotPending(es: Entries, mask: Mask, pending: map<nat, Pending>, c: nat, bit: nat)
    requires Permitted(es, mask, pending) && bit in mask && Resolve(Lookup(es, c), bit) == OnOrigin
    ensures forall id, i :: id in pending && 0 <= i < |pending[id].chunks| ==> pending[id].chunks[i] != c
  {
    hide AllReady, Lookup, Resolve;
    NotReady(es, mask, c, bit);
  }

  /** Nothing is granted or waits: no client will write what it asked for before. */
  predicate Settled(pending: map<nat, Pending>, granted: map<nat, seq<nat>>) {
    && (forall id :: id in pending ==> pending[id].chunks == [])
    && forall id :: id in granted ==> granted[id] == []
  }

  /** A snapshot with a new bit has no versions yet, so it needs the origin for every chunk. */
  lemma NewNeedsOrigin(es: Entries, mask: Mask, bit: nat, c: nat)
    requires Books(es, mask) && bit !in mask
    ensures Resolve(Lookup(es, c), bit) == OnOrigin && !Ready(es, c, Origin, mask + {bit})
  {
    hide Lookup, Resolve, AllShares;
    assert Proper(Lookup(es, c), mask);
    SharedByOne(Lookup(es, c), bit);
    assert bit in mask + {bit};
  }

  /** Creating a snapshot leaves writes safe just if there are no chunks that any write relies on. */
  lemma CreateSafe(es: Entries, mask: Mask, bit: nat, locks: Locks, pending: map<nat, Pending>, granted: map<nat, seq<nat>>)
    requires Books(es, mask) && bit !in mask && Permitted(es, mask, pending) && Safe(es, mask, locks, granted)
    ensures Permitted(es, mask + {bit}, pending) && Safe(es, mask + {bit}, locks, granted) <==> Settled(pending, granted)
  {
    hide Books, Ready;
    forall chunks
      ensures AllReady(es, mask + {bit}, chunks) <==> chunks == []
    {
      if chunks != [] {
        NewNeedsOrigin(es, mask, bit, chunks[0]);
      }
    }
    hide AllReady;
  }

  // Telling the writes that wait

  /** A write is answered; if it was granted, its client will do it. */
  function Granting(granted: map<nat, seq<nat>>, p: Pending, id: nat): map<nat, seq<nat>> {
    if p.ok then granted[id := p.chunks] else granted
  }

  /** The writes that clients have still to do once they get some answers. */
  ghost function Grants(granted: map<nat, seq<nat>>, answers: seq<Reply>): map<nat, seq<nat>> {
    if answers == [] then granted
    else
      var r := answers[|answers| - 1];
      Granting(Grants(granted, answers[..|answers| - 1]), Pending(0, r.ok, r.chunks), r.id)
  }

  lemma GrantsMore(granted: map<nat, seq<nat>>, answers: seq<Reply>, r: Reply)
    ensures Grants(granted, answers + [r]) == Granting(Grants(granted, answers), Pending(0, r.ok, r.chunks), r.id)
  {
    assert (answers + [r])[..|answers|] == answers;
  }

  /** A client does only what it was told it may do. */
  ghost predicate Owed(granted: map<nat, seq<nat>>, replies: seq<Reply>) {
    forall id :: id in granted ==> Reply(id, true, granted[id]) in replies
  }

  lemma {:induction false} OwedGrants(granted: map<nat, seq<nat>>, replies: seq<Reply>, answers: seq<Reply>)
    requires Owed(granted, replies)
    ensures Owed(Grants(granted, answers), replies + answers)
  {
    if answers != [] {
      var n := |answers| - 1;
      OwedGrants(granted, replies, answers[..n]);
      assert replies + answers == (replies + answers[..n]) + [answers[n]];
    } else {
      assert replies + answers == replies;
    }
  }

  lemma ToldOwed(p: map<nat, Pending>, p': map<nat, Pending>, r: seq<Reply>, r': seq<Reply>, g: map<nat, seq<nat>>, g': map<nat, seq<nat>>, locks: Locks)
    requires Told(p, p', r, r', g, g', locks) && Owed(g, r)
    ensures Owed(g', r')
  {
    OwedGrants(g, r, r'[|r|..]);
    assert r + r'[|r|..] == r';
  }

  /** From one state of the waiting writes to another: some were answered, with what they asked for,
      and none of their chunks is held. */
  ghost predicate Told(p: map<nat, Pending>, p': map<nat, Pending>, r: seq<Reply>, r': seq<Reply>, g: map<nat, seq<nat>>, g': map<nat, seq<nat>>, locks: Locks) {
    && r <= r'
    && (forall id :: id in p' ==> id in p && p'[id].ok == p[id].ok && p'[id].chunks == p[id].chunks)
    && (forall i :: |r| <= i < |r'| ==> r'[i].id in p && r'[i].ok == p[r'[i].id].ok && r'[i].chunks == p[r'[i].id].chunks && Unread(locks, r'[i].chunks))
    && (forall id :: id in g' ==> if id in g && g[id] == g'[id] then true else id in p && p[id].chunks == g'[id] && Unread(locks, g'[id]))
    && g' == Grants(g, r'[|r|..])
  }

  lemma ToldNothing(p: map<nat, Pending>, r: seq<Reply>, g: map<nat, seq<nat>>, locks: Locks)
    ensures Told(p, p, r, r, g, g, locks)
  {
  }

  ghost predicate FewerHeld(locks: Locks, locks': Locks) {
    forall c :: Held(locks', c) ==> Held(locks, c)
  }

  lemma UnreadFewer(locks: Locks, locks': Locks, chunks: seq<nat>)
    requires Unread(locks, chunks) && FewerHeld(locks, locks')
    ensures Unread(locks', chunks)
  {
  }

  lemma ToldFewer(p: map<nat, Pending>, p': map<nat, Pending>, r: seq<Reply>, r': seq<Reply>, g: map<nat, seq<nat>>, g': map<nat, seq<nat>>, locks: Locks, locks': Locks)
    requires Told(p, p', r, r', g, g', locks) && FewerHeld(locks, locks')
    ensures Told(p, p', r, r', g, g', locks')
  {
    hide Unread, FewerHeld;
    forall chunks | Unread(locks, chunks)
      ensures Unread(locks', chunks)
    {
      UnreadFewer(locks, locks', chunks);
    }
  }

  /** One write's count changes. */
  lemma ToldCount(p: map<nat, Pending>, p': map<nat, Pending>, r: seq<Reply>, r': seq<Reply>, g: map<nat, seq<nat>>, g': map<nat, seq<nat>>, locks: Locks, id: nat, count: nat)
    requires Told(p, p', r, r', g, g', locks) && id in p'
    ensures Told(p, p'[id := p'[id].(count := count)], r, r', g, g', locks)
  {
    hide Unread;
  }

  lemma ToldOne(p: map<nat, Pending>, p': map<nat, Pending>, r: seq<Reply>, r': seq<Reply>, g: map<nat, seq<nat>>, g': map<nat, seq<nat>>, locks: Locks, id: nat)
    requires Told(p, p', r, r', g, g', locks) && id in p' && Unread(locks, p'[id].chunks)
    ensures Told(p, p' - {id}, r, r' + [Reply(id, p'[id].ok, p'[id].chunks)], g, Granting(g', p'[id], id), locks)
  {
    hide Unread, Grants;
    var a := Reply(id, p'[id].ok, p'[id].chunks);
    GrantsMore(g, r'[|r|..], a);
    assert (r' + [a])[|r|..] == r'[|r|..] + [a];
  }

  /** What the answered writes rely on, they could rely on while they waited. */
  lemma ToldSafe(es: Entries, mask: Mask, locks: Locks, locks': Locks, p: map<nat, Pending>, p': map<nat, Pending>, r: seq<Reply>, r': seq<Reply>, g: map<nat, seq<nat>>, g': map<nat, seq<nat>>)
    requires Told(p, p', r, r', g, g', locks') && FewerHeld(locks, locks') && Permitted(es, mask, p) && Safe(es, mask, locks, g)
    ensures Permitted(es, mask, p') && Safe(es, mask, locks', g')
    ensures forall i :: |r| <= i < |r'| ==> AllReady(es, mask, r'[i].chunks) && Unread(locks', r'[i].chunks)
  {
    hide AllReady, Unread, FewerHeld;
    forall id | id in g'
      ensures AllReady(es, mask, g'[id]) && Unread(locks', g'[id])
    {
      if id in g && g[id] == g'[id] {
        UnreadFewer(locks, locks', g[id]);
      }
    }
  }

  // The locks after a reader comes or goes

  function Reading(locks: Locks, c: nat, client: nat): Locks {
    var lock := if c in locks then locks[c] else Lock([], []);
    locks[c := lock.(holds := [client] + lock.holds)]
  }

  function Leaving(locks: Locks, c: nat, client: nat): Locks
    requires c in locks
  {
    var lock := locks[c].(holds := Minus(locks[c].holds, client));
    if lock.holds == [] then locks - {c} else locks[c := lock]
  }

  class LockServer {
    const srv: Snapshots.Server
    var locks: Locks
    var pending: map<nat, Pending>
    var replies: seq<Reply>
    var next: nat
    /** Writes that clients have been granted and have still to do. */
    var granted: map<nat, seq<nat>>
    ghost var records: map<nat, multiset<nat>>
    ghost var pins: map<nat, Data>

    /** Counts are records, every write waits or was answered once, and what is held is as it was. */
    ghost predicate Steady()
      reads this, srv, srv.bt
    {
      && srv.Valid() && Matched(locks, pending, records, {}) && Alive(pending) && Locked(locks)
      && Once(replies, pending.Keys, next) && Owed(granted, replies) && Pinned(locks, pins, srv.origin)
    }

    /** All that, and the writes that wait or have been granted are safe. */
    ghost predicate Valid()
      reads this, srv, srv.bt
    {
      Steady() && Permitted(srv.Versions(), srv.mask, pending) && Safe(srv.Versions(), srv.mask, locks, granted)
    }

    constructor (srv: Snapshots.Server)
      requires srv.Valid()
      ensures Valid() && this.srv == srv && pending == map[] && locks == map[] && replies == [] && granted == map[] && next == 0
    {
      this.srv := srv;
      locks, pending, records, replies, next, granted, pins := map[], map[], map[], [], 0, map[], map[];
    }

    /** A snapshot client asks where to read a chunk. If it is the origin, the chunk is locked. */
    method ReadChunk(bit: nat, chunk: nat, client: nat) returns (place: Place)
      requires Valid() && bit in srv.mask && chunk < TreeSpec.LIMIT
      modifies this`locks, this`pins
      ensures Valid() && place == Resolve(Lookup(srv.Versions(), chunk), bit)
      ensures locks == if place == OnOrigin then Reading(old(locks), chunk, client) else old(locks)
    {
      hide Matched, Permitted, Safe, Once, Lookup, Resolve, Locked, Held, Pinned, Alive, Snapshots.Server.Sound;
      SrvTree(srv);
      var unique;
      unique, place := TreeLookup.SnapshotUnique(srv.bt, chunk, bit);
      if place == OnOrigin {
        NotPending(srv.Versions(), srv.mask, pending, chunk, bit);
        AtLock(locks, chunk);
        HoldAdded(locks, pending, records, chunk, client);
        ReadingSafe(srv.Versions(), srv.mask, locks, granted, chunk, client, bit);
        ReadingPinned(locks, pins, srv.origin, chunk, client);
        var lock := if chunk in locks then locks[chunk] else Lock([], []);
        LockedSet(locks, chunk, lock.(holds := [client] + lock.holds));
        locks := locks[chunk := lock.(holds := [client] + lock.holds)];
        pins := pins[chunk := At(srv.origin, chunk)];
      }
    }

    /** A snapshot client has read a chunk of the origin. When the last one has, the writes that
        wait are told so, and those that wait for nothing else are answered. */
    method ReleaseChunk(chunk: nat, client: nat)
      requires Steady() && chunk in locks && client in locks[chunk].holds
      modifies this`locks, this`pending, this`replies, this`records, this`granted, this`pins
      ensures Steady() && (old(Valid()) ==> Valid())
      ensures locks == Leaving(old(locks), chunk, client) && old(replies) <= replies
      ensures Told(old(pending), pending, old(replies), replies, old(granted), granted, locks)
    {
      hide Matched, Permitted, Safe, Once, Alive, Pinned, Told, Minus, FewerHeld, Snapshots.Server.Sound;
      ghost var before := locks;
      var holds := RemoveHold(locks[chunk].holds, client);
      var lock := locks[chunk].(holds := holds);
      Rehold(locks, pending, records, chunk, lock.holds);
      ToldNothing(pending, replies, granted, locks[chunk := lock]);
      LeavingFewer(before, chunk, client);
      locks := locks[chunk := lock];
      if lock.holds == [] {
        Drain(chunk, pending, replies, granted);
        UnpinnedSame(before, locks, pins, srv.origin, chunk);
        pins := pins - {chunk};
      } else {
        RepinnedSame(before, pins, srv.origin, chunk, lock);
      }
      assert locks == Leaving(before, chunk, client);
      ToldPrefix(old(pending), pending, old(replies), replies, old(granted), granted, locks);
      ToldOwed(old(pending), pending, old(replies), replies, old(granted), granted, locks);
      if old(Valid()) {
        ToldSafe(srv.Versions(), srv.mask, before, locks, old(pending), pending, old(replies), replies, old(granted), granted);
      }
    }

    /** Tells the writes that wait at a lock that nobody holds any more, and drops it. */
    method Drain(chunk: nat, ghost p: map<nat, Pending>, ghost r: seq<Reply>, ghost g: map<nat, seq<nat>>)
      requires Matched(locks, pending, records, {}) && Alive(pending) && Once(replies, pending.Keys, next)
      requires chunk in locks && locks[chunk].holds == [] && Locked(locks - {chunk}) && Told(p, pending, r, replies, g, granted, locks)
      modifies this`locks, this`pending, this`replies, this`records, this`granted
      ensures Matched(locks, pending, records, {}) && Alive(pending) && Once(replies, pending.Keys, next)
      ensures locks == old(locks) - {chunk} && Told(p, pending, r, replies, g, granted, locks)
    {
      hide Matched, Once, Alive, Told, FewerHeld, Locked;
      while locks[chunk].waits != []
        invariant Matched(locks, pending, records, {}) && Alive(pending) && Once(replies, pending.Keys, next)
        invariant chunk in locks && locks[chunk].holds == [] && locks - {chunk} == old(locks) - {chunk}
        invariant Told(p, pending, r, replies, g, granted, locks)
        decreases |locks[chunk].waits|
      {
        Tell(chunk, p, r, g);
      }
      DropLock(locks, pending, records, chunk);
      ToldFewer(p, pending, r, replies, g, granted, locks, locks - {chunk});
      locks := locks - {chunk};
    }

    /** One record less for the first write that waits. */
    method Tell(chunk: nat, ghost p: map<nat, Pending>, ghost r: seq<Reply>, ghost g: map<nat, seq<nat>>)
      requires Matched(locks, pending, records, {}) && Alive(pending) && Once(replies, pending.Keys, next)
      requires chunk in locks && locks[chunk].holds == [] && locks[chunk].waits != []
      requires Told(p, pending, r, replies, g, granted, locks)
      modifies this`locks, this`pending, this`replies, this`records, this`granted
      ensures Matched(locks, pending, records, {}) && Alive(pending) && Once(replies, pending.Keys, next)
      ensures locks == old(locks)[chunk := FirstTaken(old(locks)[chunk])] && locks - {chunk} == old(locks) - {chunk}
      ensures Told(p, pending, r, replies, g, granted, locks)
    {
      hide Matched, Once, Answered, Told, Alive, FewerHeld;
      WaitTaken(locks, pending, records, chunk);
      var id := locks[chunk].waits[0];
      var w := pending[id].(count := pending[id].count - 1);
      assert (pending[id := w]).Keys == pending.Keys;
      records := records[id := records[id] - multiset{chunk}];
      TakenFewer(locks, chunk);
      ToldFewer(p, pending, r, replies, g, granted, locks, locks[chunk := FirstTaken(locks[chunk])]);
      ToldCount(p, pending, r, replies, g, granted, locks[chunk := FirstTaken(locks[chunk])], id, w.count);
      assert locks[chunk := FirstTaken(locks[chunk])] - {chunk} == locks - {chunk};
      locks := locks[chunk := FirstTaken(locks[chunk])];
      AliveLess(pending, id, w);
      pending := pending[id := w];
      if w.count == 0 {
        NoRecords(locks, pending, records, id);
        WriteGone(locks, pending, records, id);
        assert pending.Keys == (pending - {id}).Keys + {id};
        OnceAnswered(replies, (pending - {id}).Keys, next, Reply(id, w.ok, w.chunks));
        ToldOne(p, pending, r, replies, g, granted, locks, id);
        replies := replies + [Reply(id, w.ok, w.chunks)];
        granted := Granting(granted, w, id);
        pending, records := pending - {id}, records - {id};
      }
    }

    /** The state of a write being taken: the chunks dealt with so far. */
    ghost predicate Taking(id: nat, created: bool, done: seq<nat>)
      reads this, srv, srv.bt
    {
      && Matched(locks, pending, records, if created then {id} else {}) && Locked(locks) && Alive(pending)
      && Permitted(srv.Versions(), srv.mask, pending) && Safe(srv.Versions(), srv.mask, locks, granted)
      && AllReady(srv.Versions(), srv.mask, done)
      && if created then Waits(id, done, 2) else id !in pending && Unread(locks, done)
    }

    /** It waits at the chunks that are being read, with `least` records at least. */
    ghost predicate Waits(id: nat, done: seq<nat>, least: nat)
      reads this
    {
      id in pending && pending[id].count >= least && pending[id].chunks == [] && Covered(locks, id, done) && Mine(locks, id, done)
    }

    /** The same while it is being set up to wait. */
    ghost predicate Beginning(id: nat, done: seq<nat>)
      reads this, srv, srv.bt
    {
      && Matched(locks, pending, records, {id}) && Locked(locks) && Alive(pending)
      && Permitted(srv.Versions(), srv.mask, pending) && Safe(srv.Versions(), srv.mask, locks, granted)
      && AllReady(srv.Versions(), srv.mask, done) && Waits(id, done, 1)
    }

    /** If a chunk is being read, the write waits for it. */
    method WaitFor(chunk: nat, id: nat, created0: bool, ghost done: seq<nat>) returns (created: bool)
      requires Taking(id, created0, done) && Ready(srv.Versions(), chunk, Origin, srv.mask)
      modifies this`locks, this`pending, this`records
      ensures Taking(id, created, done + [chunk]) && created == (created0 || chunk in locks) && SameHolds(old(locks), locks)
      ensures pending.Keys == old(pending).Keys + (if created then {id} else {}) && OthersSame(old(pending), pending, id)
    {
      hide Matched, Permitted, Safe, Alive, Ready, Weaker, Covered, Unread, AllReady, Locked, Held, SameHolds, OthersSame, Mine, Snapshots.Server.Sound;
      created := created0;
      OthersSameSelf(pending, id);
      SameHoldsSelf(locks);
      if chunk !in locks {
        ReadyAppend(srv.Versions(), srv.mask, done, chunk);
        NotLocked(locks, id, done, chunk);
        MineMore(locks, id, done, chunk);
      } else {
        if !created {
          Begin(id, done);
          created := true;
        }
        ghost var waiting := pending;
        AddRecord(chunk, id, done);
        OthersSameTwice(old(pending), waiting, pending, id);
      }
    }

    /** The write is set up to wait. */
    method Begin(id: nat, ghost done: seq<nat>)
      requires Taking(id, false, done)
      modifies this`pending, this`records
      ensures Beginning(id, done) && pending.Keys == old(pending).Keys + {id} && OthersSame(old(pending), pending, id)
    {
      hide Matched, Permitted, Safe, Alive, Ready, Covered, Unread, AllReady, Locked, Held, OthersSame, Mine, Snapshots.Server.Sound;
      OthersSameSelf(pending, id);
      NewPending(locks, pending, records, id);
      UnreadCovered(locks, id, done);
      NoneMine(locks, pending, records, id, done);
      NoneDone(srv.Versions(), srv.mask, locks);
      PermittedMore(srv.Versions(), srv.mask, pending, id, Pending(1, true, []));
      AliveMore(pending, id, Pending(1, true, []));
      OtherSet(pending, pending, id, Pending(1, true, []));
      pending, records := pending[id := Pending(1, true, [])], records[id := multiset{}];
    }

    /** One more record of a write, at a chunk that is being read. */
    method AddRecord(chunk: nat, id: nat, ghost done: seq<nat>)
      requires Beginning(id, done) && Ready(srv.Versions(), chunk, Origin, srv.mask) && chunk in locks
      modifies this`locks, this`pending, this`records
      ensures Taking(id, true, done + [chunk]) && SameHolds(old(locks), locks) && locks.Keys == old(locks).Keys
      ensures pending.Keys == old(pending).Keys && OthersSame(old(pending), pending, id)
    {
      hide Matched, Permitted, Safe, Alive, Ready, Weaker, Covered, Unread, AllReady, Locked, Held, SameHolds, OthersSame, Mine, Snapshots.Server.Sound;
      ghost var lock, w := WithWait(locks[chunk], id), pending[id].(count := pending[id].count + 1);
      OthersSameSelf(pending, id);
      OtherSet(pending, pending, id, w);
      ReadyAppend(srv.Versions(), srv.mask, done, chunk);
      MatchedKeys(locks, pending, records, {id});
      WaitAdded(locks, pending, records, {id}, id, chunk);
      CoveredWeaker(locks, locks[chunk := lock], id, done);
      CoveredAppend(locks[chunk := lock], id, done, chunk);
      MineAppend(locks, id, done, chunk);
      AtLock(locks, chunk);
      LockedSet(locks, chunk, lock);
      WithWaitSafe(srv.Versions(), srv.mask, locks, granted, chunk, id);
      PermittedAt(srv.Versions(), srv.mask, pending, id, w);
      AliveMore(pending, id, w);
      records := records[id := records[id] + multiset{chunk}];
      pending := pending[id := pending[id].(count := pending[id].count + 1)];
      locks := locks[chunk := WithWait(locks[chunk], id)];
    }

    /** A client asks to write chunks of the origin: each is copied out where snapshots share it, and
        the write waits for those that are being read. If there are none it is answered now. */
    method QueryWrite(chunks: seq<nat>) returns (ok: bool)
      requires Valid() && forall i :: 0 <= i < |chunks| ==> chunks[i] < TreeSpec.LIMIT
      modifies this`locks, this`pending, this`records, this`replies, this`next, this`granted
      modifies srv`free, srv`data, srv`source, srv`dest, srv`copies, srv.bt
      ensures Valid() && next == old(next) + 1 && SameHolds(old(locks), locks) && OthersSame(old(pending), pending, old(next))
      ensures if old(next) in pending then replies == old(replies) && granted == old(granted) && pending[old(next)].ok == ok
        else Replied(old(replies), replies, old(next), ok) && granted == Granting(old(granted), Pending(0, ok, replies[old(|replies|)].chunks), old(next))
      ensures ok ==> if old(next) in pending then pending[old(next)].chunks == chunks else replies[old(|replies|)].chunks == chunks
      ensures ok ==> (old(next) in pending <==> exists i :: 0 <= i < |chunks| && chunks[i] in old(locks))
      ensures Snapshots.Plenty(old(|srv.free|), old(srv.bt.levels), |chunks|) ==> ok
      ensures ok && chunks != [] ==> Snapshots.Room(old(|srv.free|), old(srv.bt.levels))
      ensures |srv.free| + Snapshots.Spent(old(srv.bt.levels), |chunks|) >= old(|srv.free|) && srv.bt.levels <= old(srv.bt.levels) + |chunks|
    {
      hide Matched, Permitted, Safe, Alive, Ready, Once, Owed, OthersSame, SameHolds, Unread, Covered, AllReady, Locked, Held, Pinned, Snapshots.Server.Sound, Snapshots.Plenty, Snapshots.Room, Snapshots.StaysReady;
      ghost var plenty := Snapshots.Plenty(|srv.free|, srv.bt.levels, |chunks|);
      OthersSameSelf(pending, next);
      var id, created, done := next, false, [];
      ok := true;
      NextUnused(replies, pending.Keys, next);
      NoneDone(srv.Versions(), srv.mask, locks);
      SameHoldsSelf(locks);
      for i := 0 to |chunks|
        invariant srv.Sound() && Taking(id, created, done) && SameHolds(old(locks), locks)
        invariant id == next == old(next) && replies == old(replies) && granted == old(granted)
        invariant pending.Keys == old(pending).Keys + (if created then {id} else {}) && OthersSame(old(pending), pending, id)
        invariant ok ==> done == chunks[..i] && (created <==> exists k :: 0 <= k < i && chunks[k] in old(locks))
        invariant i == 0 ==> ok && srv.free == old(srv.free) && srv.bt.levels == old(srv.bt.levels)
        invariant ok ==> i == 0 || Snapshots.Room(old(|srv.free|), old(srv.bt.levels))
        invariant |srv.free| + Snapshots.Spent(old(srv.bt.levels), i) >= old(|srv.free|) && srv.bt.levels <= old(srv.bt.levels) + i
        invariant plenty ==> ok
      {
        if plenty {
          Snapshots.PlentyAfter(old(|srv.free|), old(srv.bt.levels), |chunks|, i, |srv.free|, srv.bt.levels);
          Snapshots.PlentyRoom(|srv.free|, srv.bt.levels, |chunks| - i);
        }
        ghost var es, mask := srv.Versions(), srv.mask;
        var copied, address := srv.MakeUnique(chunks[i], Origin);
        PermittedStays(es, mask, srv.Versions(), srv.mask, pending);
        SafeStays(es, mask, srv.Versions(), srv.mask, locks, granted);
        ReadyStays(es, mask, srv.Versions(), srv.mask, done);
        if copied {
          SameHoldsKeys(old(locks), locks);
          ghost var was, waiting := locks, pending;
          created := WaitFor(chunks[i], id, created, done);
          SameHoldsTwice(old(locks), was, locks);
          OthersSameTwice(old(pending), waiting, pending, id);
          done := done + [chunks[i]];
        }
        ok := ok && copied;
      }
      srv.Flush();
      PinnedSame(old(locks), locks, pins, srv.origin);
      ghost var waiting := pending;
      Answer(id, created, ok, done);
      OthersSameTwice(old(pending), waiting, pending, id);
    }

    /** The last step: the write's own hold is dropped, or it is answered. */
    method Answer(id: nat, created: bool, ok: bool, done: seq<nat>)
      requires srv.Valid() && Taking(id, created, done) && id == next && Pinned(locks, pins, srv.origin) && Owed(granted, replies)
      requires Once(replies, if created then pending.Keys - {id} else pending.Keys, next)
      modifies this`pending, this`replies, this`next, this`granted
      ensures Valid() && next == old(next) + 1 && OthersSame(old(pending), pending, id)
      ensures if created then replies == old(replies) && granted == old(granted) && id in pending && pending[id].ok == ok && pending[id].chunks == done
        else id !in pending && Replied(old(replies), replies, id, ok) && replies[old(|replies|)].chunks == done && granted == Granting(old(granted), Pending(0, ok, done), id)
    {
      hide Matched, Permitted, Safe, Alive, Ready, Once, Unread, Covered, AllReady, Locked, Held, Pinned, Snapshots.Server.Sound;
      if created {
        OnceTaken(replies, pending.Keys - {id}, next);
        assert pending.Keys - {id} + {id} == pending.Keys;
        SetUp(locks, pending, records, id, ok, done);
        PermittedMore(srv.Versions(), srv.mask, pending, id, Pending(pending[id].count - 1, ok, done));
        AliveMore(pending, id, Pending(pending[id].count - 1, ok, done));
        pending := pending[id := Pending(pending[id].count - 1, ok, done)];
        assert pending.Keys == old(pending).Keys;
      } else {
        OnceTaken(replies, pending.Keys, next);
        OnceAnswered(replies, pending.Keys, next + 1, Reply(id, ok, done));
        SafeMore(srv.Versions(), srv.mask, locks, granted, id, done);
        replies := replies + [Reply(id, ok, done)];
        granted := Granting(granted, Pending(0, ok, done), id);
      }
      next := next + 1;
    }

    /** A client does the write it was granted, at whatever later time: no snapshot changes, and no
        chunk that is being read. */
    method ClientWrite(id: nat, values: seq<Data>)
      requires Valid() && id in granted && |values| == |granted[id]|
      modifies this`granted, srv`origin, srv`view
      ensures Valid() && granted == old(granted) - {id}
      ensures srv.view == Volume.After(old(srv.view), OriginWrite(old(granted)[id], values)) && srv.view.snaps == old(srv.view).snaps
      ensures forall c :: c in locks ==> At(srv.origin, c) == At(old(srv.origin), c)
    {
      hide Matched, Permitted, Alive, Ready, Once, Locked, Pinned, Written, Snapshots.Server.Sound;
      var chunks := granted[id];
      SafeAt(srv.Versions(), srv.mask, locks, granted, id);
      ghost var was := srv.origin;
      srv.SoundOrigin();
      srv.PutOrigin(chunks, values);
      srv.SoundOrigin();
      PinnedWritten(locks, pins, was, chunks, values);
      granted := granted - {id};
    }

    /** The requests that do not wait. Creating a snapshot leaves the writes that wait or have been
        granted safe if and only if there is no chunk that they rely on. */
    method OtherRequest(op: Op) returns (ok: bool)
      requires Valid() && WellFormed(op) && InRange(op) && !op.OriginWrite? && (op.Delete? ==> srv.bt.levels <= 2)
      modifies srv, srv.bt
      ensures Steady() && srv.view == if ok then Volume.After(old(srv.view), op) else old(srv.view)
      ensures Valid() <==> (op.Create? && ok ==> Settled(pending, granted))
      ensures op.Create? && ok ==> exists bit :: bit in srv.mask && forall c :: Resolve(Lookup(srv.Versions(), c), bit) == OnOrigin
      ensures op.Create? ==> srv.Versions() == old(srv.Versions())
      ensures ok ==> Snapshots.Allowed(op, old(srv.view))
      ensures |srv.free| + Snapshots.Spent(old(srv.bt.levels), Snapshots.Copies(op)) >= old(|srv.free|)
      ensures srv.bt.levels <= old(srv.bt.levels) + Snapshots.Copies(op)
      ensures !ok && Snapshots.Allowed(op, old(srv.view)) ==> op.SnapshotWrite? && !Snapshots.Plenty(old(|srv.free|), old(srv.bt.levels), |op.chunks|)
    {
      hide Matched, Once, Locked, Alive, Pinned, Permitted, Safe, Ready, Written, Settled, Lookup, Resolve, Snapshots.Server.Sound;
      ghost var es, mask := srv.Versions(), srv.mask;
      srv.SoundOrigin();
      srv.SnapCount();
      match op {
        case Create(tag) =>
          SrvBooks(srv);
          var bit;
          ok, bit := srv.CreateSnapshot(tag);
          if ok {
            CreateSafe(es, mask, bit, locks, pending, granted);
            forall c
              ensures Resolve(Lookup(es, c), bit) == OnOrigin
            {
              NewNeedsOrigin(es, mask, bit, c);
            }
          }
        case Delete(tag) =>
          ok := srv.DeleteSnapshot(tag);
          PermittedStays(es, mask, srv.Versions(), srv.mask, pending);
          SafeStays(es, mask, srv.Versions(), srv.mask, locks, granted);
        case SnapshotWrite(tag, chunks, values) =>
          ghost var s := srv.ListedAt(tag);
          ok := srv.WriteSnapshot(tag, chunks, values);
          PermittedStays(es, mask, srv.Versions(), srv.mask, pending);
          SafeStays(es, mask, srv.Versions(), srv.mask, locks, granted);
      }
      srv.SoundOrigin();
    }
  }

  lemma AtLock(locks: Locks, c: nat)
    requires Locked(locks)
    ensures c in locks ==> locks[c].holds != []
  {
  }

  lemma LockedSet(locks: Locks, c: nat, lock: Lock)
    requires Locked(locks) && lock.holds != []
    ensures Locked(locks[c := lock])
  {
  }

  lemma ReadyAppend(es: Entries, mask: Mask, done: seq<nat>, c: nat)
    requires AllReady(es, mask, done) && Ready(es, c, Origin, mask)
    ensures AllReady(es, mask, done + [c])
  {
  }

  lemma CoveredAppend(locks: Locks, id: nat, done: seq<nat>, c: nat)
    requires Covered(locks, id, done) && c in locks && id in locks[c].waits
    ensures Covered(locks, id, done + [c])
  {
  }

  lemma NoneMine(locks: Locks, pending: map<nat, Pending>, records: map<nat, multiset<nat>>, id: nat, done: seq<nat>)
    requires Matched(locks, pending, records, {}) && id !in pending
    ensures Mine(locks, id, done)
  {
  }

  lemma MineMore(locks: Locks, id: nat, done: seq<nat>, c: nat)
    ensures Mine(locks, id, done) ==> Mine(locks, id, done + [c])
  {
  }

  lemma MineAppend(locks: Locks, id: nat, done: seq<nat>, c: nat)
    requires Mine(locks, id, done) && c in locks
    ensures Mine(locks[c := WithWait(locks[c], id)], id, done + [c])
  {
  }

  lemma NotLocked(locks: Locks, id: nat, done: seq<nat>, c: nat)
    requires c !in locks
    ensures Covered(locks, id, done) ==> Covered(locks, id, done + [c])
    ensures Unread(locks, done) ==> Unread(locks, done + [c])
  {
  }

  lemma MatchedKeys(locks: Locks, pending: map<nat, Pending>, records: map<nat, multiset<nat>>, setup: set<nat>)
    requires Matched(locks, pending, records, setup)
    ensures pending.Keys == records.Keys
  {
  }

  lemma NextUnused(replies: seq<Reply>, waiting: set<nat>, next: nat)
    requires Once(replies, waiting, next)
    ensures next !in waiting
  {
    assert next !in waiting + Answered(replies);
  }

  lemma NoneDone(es: Entries, mask: Mask, locks: Locks)
    ensures AllReady(es, mask, []) && Unread(locks, [])
  {
  }

  lemma UnreadCovered(locks: Locks, id: nat, done: seq<nat>)
    requires Unread(locks, done)
    ensures Covered(locks, id, done)
  {
  }

  lemma PermittedMore(es: Entries, mask: Mask, pending: map<nat, Pending>, id: nat, p: Pending)
    requires Permitted(es, mask, pending) && AllReady(es, mask, p.chunks)
    ensures Permitted(es, mask, pending[id := p])
  {
  }

  /** A write that has no record yet. */
  lemma NewPending(locks: Locks, pending: map<nat, Pending>, records: map<nat, multiset<nat>>, id: nat)
    requires Matched(locks, pending, records, {}) && id !in pending
    ensures Matched(locks, pending[id := Pending(1, true, [])], records[id := multiset{}], {id})
  {
    hide Covered;
    var records' := records[id := multiset{}];
    forall i, c | i in records'
      ensures records'[i][c] == Waiting(locks, c, i)
    {
      if i != id {
        assert records[i][c] == Waiting(locks, c, i);
      } else if c in locks {
        assert id !in locks[c].waits;
      }
    }
    NoChunks(locks, id);
  }

  lemma NoChunks(locks: Locks, id: nat)
    ensures Covered(locks, id, [])
  {
  }

  /** A write that has been taken. */
  lemma SetUp(locks: Locks, pending: map<nat, Pending>, records: map<nat, multiset<nat>>, id: nat, ok: bool, done: seq<nat>)
    requires Matched(locks, pending, records, {id}) && id in pending && Covered(locks, id, done) && Mine(locks, id, done)
    ensures pending[id].count > 0 && Matched(locks, pending[id := Pending(pending[id].count - 1, ok, done)], records, {})
  {
    hide Covered, Agree;
    var pending' := pending[id := Pending(pending[id].count - 1, ok, done)];
    assert pending'.Keys == pending.Keys;
  }

  lemma PermittedAt(es: Entries, mask: Mask, pending: map<nat, Pending>, id: nat, p: Pending)
    requires Permitted(es, mask, pending) && id in pending && p.chunks == pending[id].chunks
    ensures AllReady(es, mask, p.chunks) && Permitted(es, mask, pending[id := p])
  {
  }

  lemma SrvTree(srv: Snapshots.Server)
    requires srv.Valid()
    ensures srv.bt.Valid()
  {
  }

  lemma SrvBooks(srv: Snapshots.Server)
    requires srv.Valid()
    ensures Books(srv.Versions(), srv.mask)
  {
  }

  ghost predicate Replied(r: seq<Reply>, r': seq<Reply>, id: nat, ok: bool) {
    |r'| == |r| + 1 && r <= r' && r'[|r|].id == id && r'[|r|].ok == ok
  }

  /** The other writes that wait are as they were. */
  ghost predicate OthersSame(p: map<nat, Pending>, p': map<nat, Pending>, id: nat) {
    forall i :: i in p' && i != id ==> i in p && p'[i] == p[i]
  }

  lemma OthersSameSelf(p: map<nat, Pending>, id: nat)
    ensures OthersSame(p, p, id)
  {
  }

  lemma OtherSet(a: map<nat, Pending>, b: map<nat, Pending>, id: nat, p: Pending)
    requires OthersSame(a, b, id)
    ensures OthersSame(a, b[id := p], id)
  {
  }

  lemma OthersSameTwice(a: map<nat, Pending>, b: map<nat, Pending>, c: map<nat, Pending>, id: nat)
    requires OthersSame(a, b, id) && OthersSame(b, c, id)
    ensures OthersSame(a, c, id)
  {
  }

  /** The same clients hold the same chunks. */
  ghost predicate SameHolds(locks: Locks, locks': Locks) {
    locks'.Keys == locks.Keys && forall c :: c in locks ==> locks'[c].holds == locks[c].holds
  }

  lemma SameHoldsSelf(locks: Locks)
    ensures SameHolds(locks, locks)
  {
  }

  lemma SameHoldsKeys(locks: Locks, locks': Locks)
    requires SameHolds(locks, locks')
    ensures locks'.Keys == locks.Keys
  {
  }

  lemma SameHoldsTwice(a: Locks, b: Locks, c: Locks)
    requires SameHolds(a, b) && SameHolds(b, c)
    ensures SameHolds(a, c)
  {
  }

  lemma PinnedSame(locks: Locks, locks': Locks, pins: map<nat, Data>, origin: Disk)
    requires Pinned(locks, pins, origin) && SameHolds(locks, locks')
    ensures Pinned(locks', pins, origin)
  {
  }

  lemma ReadingPinned(locks: Locks, pins: map<nat, Data>, origin: Disk, c: nat, client: nat)
    requires Pinned(locks, pins, origin)
    ensures Pinned(Reading(locks, c, client), pins[c := At(origin, c)], origin)
  {
  }

  lemma RepinnedSame(locks: Locks, pins: map<nat, Data>, origin: Disk, c: nat, lock: Lock)
    requires Pinned(locks, pins, origin) && c in locks
    ensures Pinned(locks[c := lock], pins, origin)
  {
  }

  lemma UnpinnedSame(locks: Locks, locks': Locks, pins: map<nat, Data>, origin: Disk, c: nat)
    requires Pinned(locks, pins, origin) && locks'.Keys == locks.Keys - {c}
    ensures Pinned(locks', pins - {c}, origin)
  {
  }

  lemma PinnedWritten(locks: Locks, pins: map<nat, Data>, origin: Disk, chunks: seq<nat>, values: seq<Data>)
    requires Pinned(locks, pins, origin) && Locked(locks) && Unread(locks, chunks) && |chunks| == |values|
    ensures Pinned(locks, pins, Written(origin, chunks, values))
    ensures forall c :: c in locks ==> At(Written(origin, chunks, values), c) == At(origin, c)
  {
    hide Written;
    forall c | c in locks
      ensures At(Written(origin, chunks, values), c) == At(origin, c)
    {
      WrittenElsewhere(origin, chunks, values, c);
    }
  }

  /** A new reader holds nothing that a granted write relies on. */
  lemma ReadingSafe(es: Entries, mask: Mask, locks: Locks, granted: map<nat, seq<nat>>, c: nat, client: nat, bit: nat)
    requires Safe(es, mask, locks, granted) && bit in mask && Resolve(Lookup(es, c), bit) == OnOrigin
    ensures Safe(es, mask, Reading(locks, c, client), granted)
  {
    hide AllReady, Lookup, Resolve;
    NotReady(es, mask, c, bit);
    forall id | id in granted
      ensures Unread(Reading(locks, c, client), granted[id])
    {
      assert AllReady(es, mask, granted[id]) && Unread(locks, granted[id]);
    }
  }

  lemma WithWaitSafe(es: Entries, mask: Mask, locks: Locks, granted: map<nat, seq<nat>>, c: nat, id: nat)
    requires Safe(es, mask, locks, granted) && c in locks
    ensures Safe(es, mask, locks[c := WithWait(locks[c], id)], granted) && SameHolds(locks, locks[c := WithWait(locks[c], id)])
  {
    hide AllReady, Unread;
    forall i | i in granted
      ensures Unread(locks[c := WithWait(locks[c], id)], granted[i])
    {
      UnreadFewer(locks, locks[c := WithWait(locks[c], id)], granted[i]);
    }
  }

  lemma SafeMore(es: Entries, mask: Mask, locks: Locks, granted: map<nat, seq<nat>>, id: nat, chunks: seq<nat>)
    requires Safe(es, mask, locks, granted) && AllReady(es, mask, chunks) && Unread(locks, chunks)
    ensures Safe(es, mask, locks, granted[id := chunks])
  {
  }

  lemma SafeAt(es: Entries, mask: Mask, locks: Locks, granted: map<nat, seq<nat>>, id: nat)
    requires Safe(es, mask, locks, granted) && id in granted
    ensures AllReady(es, mask, granted[id]) && Unread(locks, granted[id]) && Safe(es, mask, locks, granted - {id})
  {
  }

  lemma AliveLess(pending: map<nat, Pending>, id: nat, w: Pending)
    requires Alive(pending) && id in pending
    ensures w.count > 0 ==> Alive(pending[id := w])
    ensures Alive(pending[id := w] - {id})
  {
  }

  lemma AliveMore(pending: map<nat, Pending>, id: nat, w: Pending)
    requires Alive(pending) && w.count > 0
    ensures Alive(pending[id := w])
  {
  }

  lemma TakenFewer(locks: Locks, c: nat)
    requires c in locks && locks[c].holds == [] && locks[c].waits != []
    ensures FewerHeld(locks, locks[c := FirstTaken(locks[c])])
  {
  }

  lemma LeavingFewer(locks: Locks, c: nat, client: nat)
    requires c in locks && client in locks[c].holds
    ensures FewerHeld(locks, Leaving(locks, c, client)) && Held(locks, c)
  {
    hide Minus;
  }

  /** A lock that nobody holds and nobody waits at goes. */
  lemma DropLock(locks: Locks, pending: map<nat, Pending>, records: map<nat, multiset<nat>>, c: nat)
    requires Matched(locks, pending, records, {}) && c in locks && locks[c].holds == [] && locks[c].waits == []
    ensures Matched(locks - {c}, pending, records, {}) && FewerHeld(locks, locks - {c})
  {
    HoldsChanged(locks, pending, records, locks - {c});
  }

  /** A held lock gets other holders, or none. */
  lemma Rehold(locks: Locks, pending: map<nat, Pending>, records: map<nat, multiset<nat>>, c: nat, holds: seq<nat>)
    requires Matched(locks, pending, records, {}) && c in locks && locks[c].holds != []
    ensures Matched(locks[c := locks[c].(holds := holds)], pending, records, {})
  {
    HoldsChanged(locks, pending, records, locks[c := locks[c].(holds := holds)]);
  }

  lemma ToldPrefix(p: map<nat, Pending>, p': map<nat, Pending>, r: seq<Reply>, r': seq<Reply>, g: map<nat, seq<nat>>, g': map<nat, seq<nat>>, locks: Locks)
    requires Told(p, p', r, r', g, g', locks)
    ensures r <= r'
  {
  }

  /** Takes the first hold of a client off a lock. */
  method RemoveHold(holds: seq<nat>, client: nat) returns (rest: seq<nat>)
    requires client in holds
    ensures rest == Minus(holds, client)
  {
    var i: nat := 0;
    while holds[i] != client
      invariant i < |holds| && forall k :: 0 <= k < i ==> holds[k] != client
      decreases |holds| - i
    {
      i := i + 1;
    }
    MinusAt(holds, i, client);
    rest := holds[..i] + holds[i + 1..];
  }
}
