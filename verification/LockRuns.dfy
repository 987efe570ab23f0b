/** Whole runs of clients that read snapshots and write the origin. */
module LockRuns {
  import opened Exceptions
  import opened Volume
  import opened Devices
  import opened Sequences
  import opened SnapLocks
  import TreeSpec
  import Snapshots

  datatype Message =
    | Query(chunks: seq<nat>)
    | Read(tag: nat, chunk: nat, client: nat)
    | Release(chunk: nat, client: nat)
    | Do(id: nat, values: seq<Data>)
    | Other(op: Op)

  /** A message that names chunks that can be recorded. */
  predicate Plain(m: Message) {
    match m
    case Query(chunks) => forall i :: 0 <= i < |chunks| ==> chunks[i] < TreeSpec.LIMIT
    case Read(_, chunk, _) => chunk < TreeSpec.LIMIT
    case Other(op) => WellFormed(op) && InRange(op) && !op.OriginWrite?
    case _ => true
  }

  /** What the run stops before: a release by a client that does not hold the chunk, a snapshot created
      while some write may still come, and a deletion from a tree of more than two levels. */
  predicate Outside(server: LockServer, m: Message)
    reads server, server.srv, server.srv.bt
  {
    match m
    case Release(chunk, client) => chunk in server.locks && client !in server.locks[chunk].holds
    case Other(Create(_)) => !Settled(server.pending, server.granted)
    case Other(Delete(_)) => server.srv.bt.levels > 2
    case _ => false
  }

  type Request = op: Op | WellFormed(op) witness Create(0)

  /** What a message does: a request takes effect, or a reader is given the data, or is told to read the
      origin. */
  datatype Effect = None | Took(op: Request) | Local(value: Data) | Shared

  /** What the clients and the server know of each other at some moment. */
  datatype Moment = Moment(view: View, locks: Locks, pending: map<nat, Pending>, replies: seq<Reply>, granted: map<nat, seq<nat>>, next: nat, free: nat, levels: nat)

  ghost function Now(server: LockServer): Moment
    reads server, server.srv, server.srv.bt
  {
    Moment(server.srv.view, server.locks, server.pending, server.replies, server.granted, server.next, |server.srv.free|, server.srv.bt.levels)
  }

  ghost function Changed(v: View, e: Effect): View {
    if e.Took? then After(v, e.op) else v
  }

  /** How often a client holds a chunk. */
  ghost function Holds(locks: Locks, c: nat, client: nat): nat {
    if c in locks then multiset(locks[c].holds)[client] else 0
  }

  /** A reader that is told to read the origin holds the chunk until it says that it has read it. */
  ghost function Kept(m: Message, e: Effect, c: nat, client: nat, before: nat): nat {
    match m
    case Read(_, d, x) => if e == Shared && d == c && x == client then before + 1 else before
    case Release(d, x) => if d == c && x == client && before > 0 then before - 1 else before
    case _ => before
  }

  /** The effect that a message may have: a client's write happens just if it has been granted and not
      done before, another request only if it makes sense, and a reader gets what its snapshot is. */
  ghost predicate Fits(m: Message, e: Effect, a: Moment) {
    match m
    case Do(id, values) =>
      e == if id in a.granted && |values| == |a.granted[id]| then Took(OriginWrite(a.granted[id], values)) else None
    case Other(op) =>
      && (e == None || (e.Took? && e.op == op && !op.OriginWrite? && Snapshots.Allowed(op, a.view)))
      && (e == None && Snapshots.Allowed(op, a.view) ==> op.SnapshotWrite? && !Snapshots.Plenty(a.free, a.levels, |op.chunks|))
    case Read(tag, chunk, _) =>
      if tag !in a.view.snaps then e == None
      else e == Local(At(a.view.snaps[tag], chunk)) || (e == Shared && At(a.view.origin, chunk) == At(a.view.snaps[tag], chunk))
    case _ => e == None
  }

  /** The answer that a write gets or will get: what was decided when it was asked for. */
  ghost predicate Due(m: Message, a: Moment, id: nat, ok: bool, chunks: seq<nat>) {
    if id in a.pending then ok == a.pending[id].ok && chunks == a.pending[id].chunks
    else m.Query? && id == a.next && if ok then chunks == m.chunks else !Snapshots.Plenty(a.free, a.levels, |m.chunks|)
  }

  /** The writes still to be done, but for one that has just been done. */
  function Undone(granted: map<nat, seq<nat>>, m: Message, e: Effect): map<nat, seq<nat>> {
    if m.Do? && e.Took? then granted - {m.id} else granted
  }

  ghost function Size(m: Message): nat {
    match m
    case Query(chunks) => |chunks|
    case Other(op) => Snapshots.Copies(op)
    case _ => 0
  }

  /** The store has not lost more than the messages may take. */
  ghost predicate Roomy(a: Moment, b: Moment, n: nat) {
    b.free + Snapshots.Spent(a.levels, n) >= a.free && b.levels <= a.levels + n
  }

  ghost predicate Step(m: Message, e: Effect, a: Moment, b: Moment) {
    && Fits(m, e, a) && b.view == Changed(a.view, e)
    && (forall c, client :: Holds(b.locks, c, client) == Kept(m, e, c, client, Holds(a.locks, c, client)))
    && a.replies <= b.replies && b.granted == Grants(Undone(a.granted, m, e), b.replies[|a.replies|..])
    && b.next == a.next + (if m.Query? then 1 else 0)
    && (forall id :: id in b.pending ==> Due(m, a, id, b.pending[id].ok, b.pending[id].chunks))
    && (forall i :: |a.replies| <= i < |b.replies| ==> Due(m, a, b.replies[i].id, b.replies[i].ok, b.replies[i].chunks))
    && Roomy(a, b, Size(m))
  }

  /** At every moment: a write taken waits or has been answered, once; what is granted was answered so,
      and nobody reads it; and a write waits only while some client reads one of its chunks. */
  ghost predicate Sane(a: Moment) {
    && Once(a.replies, a.pending.Keys, a.next) && Owed(a.granted, a.replies)
    && (forall id :: id in a.granted ==> Unread(a.locks, a.granted[id]))
    && forall id :: id in a.pending ==> SomeRead(a.locks, a.pending[id].chunks)
  }

  ghost predicate SomeRead(locks: Locks, chunks: seq<nat>) {
    exists i :: 0 <= i < |chunks| && SnapLocks.Held(locks, chunks[i])
  }

  ghost predicate Chain(at: seq<Moment>, messages: seq<Message>, effects: seq<Effect>) {
    && |at| == |messages| + 1 == |effects| + 1
    && (forall k :: 0 <= k < |at| ==> Sane(at[k]))
    && forall k :: 0 <= k < |messages| ==> Step(messages[k], effects[k], at[k], at[k + 1])
  }

  lemma ChainNext(at: seq<Moment>, messages: seq<Message>, effects: seq<Effect>, b: Moment, m: Message, e: Effect)
    requires Chain(at, messages, effects) && Sane(b) && Step(m, e, at[|messages|], b)
    ensures Chain(at + [b], messages + [m], effects + [e])
  {
    hide Sane, Step;
    var at', ms, es := at + [b], messages + [m], effects + [e];
    forall k | 0 <= k < |ms|
      ensures Step(ms[k], es[k], at'[k], at'[k + 1])
    {
      assert k < |messages| ==> Step(messages[k], effects[k], at[k], at[k + 1]);
    }
  }

  // What holds over every run

  ghost predicate Does(m: Message, e: Effect, id: nat) {
    m.Do? && m.id == id && e.Took?
  }

  lemma {:induction false} GrantsFrom(granted: map<nat, seq<nat>>, answers: seq<Reply>, id: nat)
    ensures id in Grants(granted, answers) && !(exists n :: 0 <= n < |answers| && answers[n].id == id) ==> id in granted
    ensures id in granted && !(exists n :: 0 <= n < |answers| && answers[n].id == id) ==>
      id in Grants(granted, answers) && Grants(granted, answers)[id] == granted[id]
  {
    if answers != [] {
      var n := |answers| - 1;
      assert forall i :: 0 <= i < n ==> answers[..n][i] == answers[i];
      GrantsFrom(granted, answers[..n], id);
    }
  }

  lemma {:induction false} GrantsHas(granted: map<nat, seq<nat>>, answers: seq<Reply>, i: nat)
    requires i < |answers| && answers[i].ok && forall j, k :: 0 <= j < k < |answers| ==> answers[j].id != answers[k].id
    ensures var r := answers[i]; r.id in Grants(granted, answers) && Grants(granted, answers)[r.id] == r.chunks
  {
    var n := |answers| - 1;
    if i < n {
      GrantsHas(granted, answers[..n], i);
    }
  }

  /** No write is answered a second time. */
  lemma NewAnswers(a: Moment, b: Moment, id: nat)
    requires Sane(b) && a.replies <= b.replies && id in Answered(a.replies)
    ensures var answers := b.replies[|a.replies|..]; forall n :: 0 <= n < |answers| ==> answers[n].id != id
  {
    hide Owed, Unread;
    var i := AnsweredAt(a.replies, id);
    assert b.replies[i] == a.replies[i];
  }

  lemma StepGrows(m: Message, e: Effect, a: Moment, b: Moment)
    requires Step(m, e, a, b)
    ensures a.replies <= b.replies && b.next == a.next + if m.Query? then 1 else 0
  {
  }

  lemma {:induction false} RepliesGrow(at: seq<Moment>, messages: seq<Message>, effects: seq<Effect>, i: nat, j: nat)
    requires Chain(at, messages, effects) && i <= j < |at|
    ensures at[i].replies <= at[j].replies && at[i].next <= at[j].next
    decreases j
  {
    hide Step, Sane;
    if i < j {
      RepliesGrow(at, messages, effects, i, j - 1);
      StepGrows(messages[j - 1], effects[j - 1], at[j - 1], at[j]);
    }
  }

  lemma OwedAnswered(a: Moment, id: nat)
    requires Sane(a) && id in a.granted
    ensures Reply(id, true, a.granted[id]) in a.replies && id in Answered(a.replies)
  {
    var i :| 0 <= i < |a.replies| && a.replies[i] == Reply(id, true, a.granted[id]);
    AnsweredBy(a.replies, i);
  }

  lemma StillAnswered(a: Moment, b: Moment, id: nat)
    requires a.replies <= b.replies && id in Answered(a.replies)
    ensures id in Answered(b.replies)
  {
    var i := AnsweredAt(a.replies, id);
    assert b.replies[i] == a.replies[i];
    AnsweredBy(b.replies, i);
  }

  /** A write that has been answered and is not granted is never granted again. */
  lemma {:induction false} NeverAgain(at: seq<Moment>, messages: seq<Message>, effects: seq<Effect>, i: nat, j: nat, id: nat)
    requires Chain(at, messages, effects) && i <= j < |at| && id in Answered(at[i].replies) && id !in at[i].granted
    ensures id !in at[j].granted && id in Answered(at[j].replies)
    decreases j
  {
    hide Sane;
    if i < j {
      NeverAgain(at, messages, effects, i, j - 1, id);
      var a, b := at[j - 1], at[j];
      assert Step(messages[j - 1], effects[j - 1], a, b) && Sane(b);
      NewAnswers(a, b, id);
      StillAnswered(a, b, id);
      GrantsFrom(Undone(a.granted, messages[j - 1], effects[j - 1]), b.replies[|a.replies|..], id);
    }
  }

  lemma Did(at: seq<Moment>, messages: seq<Message>, effects: seq<Effect>, k: nat, id: nat)
    requires Chain(at, messages, effects) && k < |messages| && Does(messages[k], effects[k], id)
    ensures id in at[k].granted && effects[k].op == OriginWrite(at[k].granted[id], messages[k].values)
    ensures Reply(id, true, at[k].granted[id]) in at[k].replies
    ensures id !in at[k + 1].granted && id in Answered(at[k + 1].replies)
  {
    hide Sane;
    var a, b := at[k], at[k + 1];
    assert Step(messages[k], effects[k], a, b) && Sane(a) && Sane(b);
    OwedAnswered(a, id);
    NewAnswers(a, b, id);
    StillAnswered(a, b, id);
    GrantsFrom(Undone(a.granted, messages[k], effects[k]), b.replies[|a.replies|..], id);
  }

  /** No client does the same write twice. */
  lemma DoneOnce(at: seq<Moment>, messages: seq<Message>, effects: seq<Effect>, i: nat, j: nat, id: nat)
    requires Chain(at, messages, effects) && i <= j < |messages| && Does(messages[i], effects[i], id) && Does(messages[j], effects[j], id)
    ensures i == j
  {
    hide Chain;
    Did(at, messages, effects, i, id);
    Did(at, messages, effects, j, id);
    if i < j {
      assert |at| == |messages| + 1 by { ChainSize(at, messages, effects); }
      NeverAgain(at, messages, effects, i + 1, j, id);
    }
  }

  lemma ChainSize(at: seq<Moment>, messages: seq<Message>, effects: seq<Effect>)
    requires Chain(at, messages, effects)
    ensures |at| == |messages| + 1 == |effects| + 1
  {
  }

  /** A write that was granted stays so until its client does it. */
  lemma {:induction false} StillGranted(at: seq<Moment>, messages: seq<Message>, effects: seq<Effect>, i: nat, j: nat, id: nat)
    requires Chain(at, messages, effects) && i <= j < |at| && id in at[i].granted
    requires forall k :: i <= k < j ==> !Does(messages[k], effects[k], id)
    ensures id in at[j].granted && at[j].granted[id] == at[i].granted[id]
    decreases j
  {
    hide Sane;
    if i < j {
      StillGranted(at, messages, effects, i, j - 1, id);
      var a, b := at[j - 1], at[j];
      assert Step(messages[j - 1], effects[j - 1], a, b) && Sane(a) && Sane(b);
      assert !Does(messages[j - 1], effects[j - 1], id);
      OwedAnswered(a, id);
      NewAnswers(a, b, id);
      GrantsFrom(Undone(a.granted, messages[j - 1], effects[j - 1]), b.replies[|a.replies|..], id);
    }
  }

  ghost predicate NobodyReads(locks: Locks, chunks: seq<nat>) {
    forall n, client :: 0 <= n < |chunks| ==> Holds(locks, chunks[n], client) == 0
  }

  /** When a write is answered with yes, nobody is reading any of its chunks, and its client may do it. */
  lemma AnsweredFree(at: seq<Moment>, messages: seq<Message>, effects: seq<Effect>, k: nat, i: nat)
    requires Chain(at, messages, effects) && k < |messages| && |at[k].replies| <= i < |at[k + 1].replies| && at[k + 1].replies[i].ok
    ensures var r := at[k + 1].replies[i];
      && r.id in at[k + 1].granted && at[k + 1].granted[r.id] == r.chunks
      && NobodyReads(at[k + 1].locks, r.chunks)
  {
    hide Owed;
    var a, b := at[k], at[k + 1];
    assert Step(messages[k], effects[k], a, b) && Sane(b);
    var answers := b.replies[|a.replies|..];
    assert answers[i - |a.replies|] == b.replies[i];
    GrantsHas(Undone(a.granted, messages[k], effects[k]), answers, i - |a.replies|);
    assert Unread(b.locks, b.granted[b.replies[i].id]);
  }

  // What readers see

  /** While a client holds a chunk, the origin's chunk does not change. */
  lemma HeldSame(m: Message, e: Effect, a: Moment, b: Moment, c: nat, client: nat)
    requires Sane(a) && Step(m, e, a, b) && Holds(a.locks, c, client) > 0
    ensures At(b.view.origin, c) == At(a.view.origin, c)
  {
    hide Once, Owed, Written, Snapshots.Plenty, Snapshots.Allowed;
    if m.Do? && e.Took? {
      assert Unread(a.locks, a.granted[m.id]);
      WrittenElsewhere(a.view.origin, a.granted[m.id], m.values, c);
    }
  }

  lemma SharedMeans(m: Message, a: Moment, b: Moment)
    requires m.Read? && Step(m, Shared, a, b)
    ensures m.tag in a.view.snaps && At(b.view.origin, m.chunk) == At(a.view.snaps[m.tag], m.chunk)
  {
  }

  /** A client that is told to read the origin for a snapshot finds there, for as long as it holds the
      chunk, what the snapshot was when it asked. */
  lemma {:induction false} ReadStable(at: seq<Moment>, messages: seq<Message>, effects: seq<Effect>, k: nat, j: nat)
    requires Chain(at, messages, effects) && k < j < |at| && messages[k].Read? && effects[k] == Shared
    requires forall i :: k < i < j ==> Holds(at[i].locks, messages[k].chunk, messages[k].client) > 0
    ensures messages[k].tag in at[k].view.snaps
    ensures At(at[j].view.origin, messages[k].chunk) == At(at[k].view.snaps[messages[k].tag], messages[k].chunk)
    decreases j
  {
    hide Sane, Step, Holds, At;
    if k + 1 < j {
      ReadStable(at, messages, effects, k, j - 1);
      HeldSame(messages[j - 1], effects[j - 1], at[j - 1], at[j], messages[k].chunk, messages[k].client);
    } else {
      SharedMeans(messages[k], at[k], at[j]);
    }
  }

  /** It holds the chunk until it says that it has read it. */
  lemma {:induction false} HeldUntilReleased(at: seq<Moment>, messages: seq<Message>, effects: seq<Effect>, k: nat, j: nat)
    requires Chain(at, messages, effects) && k < j < |at| && messages[k].Read? && effects[k] == Shared
    requires forall i :: k < i < j ==> messages[i] != Release(messages[k].chunk, messages[k].client)
    ensures Holds(at[j].locks, messages[k].chunk, messages[k].client) > 0
    decreases j
  {
    hide Sane, Holds;
    assert Step(messages[j - 1], effects[j - 1], at[j - 1], at[j]);
    if k + 1 < j {
      HeldUntilReleased(at, messages, effects, k, j - 1);
      assert messages[j - 1] != Release(messages[k].chunk, messages[k].client);
    }
  }

  predicate Addresses(m: Message, tag: nat) {
    m.Other? && Concerns(m.op, tag)
  }

  /** A snapshot that no request addresses stays what it is, whatever else happens. */
  lemma {:induction false} Untouched(at: seq<Moment>, messages: seq<Message>, effects: seq<Effect>, i: nat, j: nat, tag: nat)
    requires Chain(at, messages, effects) && i <= j < |at| && tag in at[i].view.snaps
    requires forall k :: i <= k < j ==> !Addresses(messages[k], tag)
    ensures tag in at[j].view.snaps && at[j].view.snaps[tag] == at[i].view.snaps[tag]
    decreases j
  {
    hide Sane;
    if i < j {
      Untouched(at, messages, effects, i, j - 1, tag);
      assert Step(messages[j - 1], effects[j - 1], at[j - 1], at[j]) && !Addresses(messages[j - 1], tag);
    }
  }

  // What writers get

  /** Message `q` asked for write `id`, of these chunks. */
  ghost predicate AskedAt(at: seq<Moment>, messages: seq<Message>, q: nat, id: nat, chunks: seq<nat>) {
    q < |messages| && q < |at| && messages[q] == Query(chunks) && at[q].next == id
  }

  ghost predicate Asked(at: seq<Moment>, messages: seq<Message>, k: nat, id: nat, chunks: seq<nat>) {
    exists q: nat :: q < k && AskedAt(at, messages, q, id, chunks)
  }

  /** Writes that wait or have been answered with yes have been asked for before, with those chunks. */
  lemma {:induction false} AllAsked(at: seq<Moment>, messages: seq<Message>, effects: seq<Effect>, k: nat)
    requires Chain(at, messages, effects) && k < |at|
    ensures forall id :: id in at[k].pending && id >= at[0].next && at[k].pending[id].ok ==> Asked(at, messages, k, id, at[k].pending[id].chunks)
    ensures forall i :: 0 <= i < |at[k].replies| && at[k].replies[i].id >= at[0].next && at[k].replies[i].ok ==>
      Asked(at, messages, k, at[k].replies[i].id, at[k].replies[i].chunks)
  {
    if k == 0 {
      KnownIds(at[0]);
    } else {
      hide Sane, Snapshots.Plenty;
      AllAsked(at, messages, effects, k - 1);
      var m, a, b := messages[k - 1], at[k - 1], at[k];
      assert Step(m, effects[k - 1], a, b);
      forall id, chunks | id >= at[0].next && Due(m, a, id, true, chunks)
        ensures Asked(at, messages, k, id, chunks)
      {
        if id in a.pending {
          assert Asked(at, messages, k - 1, id, chunks);
        } else {
          assert AskedAt(at, messages, k - 1, id, chunks);
        }
      }
      forall i | 0 <= i < |b.replies| && b.replies[i].id >= at[0].next && b.replies[i].ok
        ensures Asked(at, messages, k, b.replies[i].id, b.replies[i].chunks)
      {
        if i < |a.replies| {
          assert b.replies[i] == a.replies[i];
          assert Asked(at, messages, k - 1, a.replies[i].id, a.replies[i].chunks);
        }
      }
    }
  }

  lemma KnownIds(a: Moment)
    requires Sane(a)
    ensures forall id :: id in a.pending ==> id < a.next
    ensures forall i :: 0 <= i < |a.replies| ==> a.replies[i].id < a.next
  {
    hide Owed, Unread;
    forall id | id in a.pending
      ensures id < a.next
    {
      assert id in a.pending.Keys + Answered(a.replies);
    }
    forall i | 0 <= i < |a.replies|
      ensures a.replies[i].id < a.next
    {
      AnsweredBy(a.replies, i);
      assert a.replies[i].id in a.pending.Keys + Answered(a.replies);
    }
  }

  /** Every write to the origin in a run was granted before, and writes exactly the chunks that its client
      asked for in the query that it goes back to. */
  lemma WriteAsAsked(at: seq<Moment>, messages: seq<Message>, effects: seq<Effect>, k: nat, id: nat)
    requires Chain(at, messages, effects) && k < |messages| && Does(messages[k], effects[k], id)
    ensures effects[k].op.OriginWrite? && effects[k].op.values == messages[k].values
    ensures Reply(id, true, effects[k].op.chunks) in at[k].replies
    ensures id >= at[0].next ==> Asked(at, messages, k, id, effects[k].op.chunks)
  {
    Did(at, messages, effects, k, id);
    AllAsked(at, messages, effects, k);
  }

  /** Every query of a run waits, and then some client reads one of its chunks, or has been answered, once. */
  lemma QueryAnswered(at: seq<Moment>, messages: seq<Message>, effects: seq<Effect>, q: nat, k: nat)
    requires Chain(at, messages, effects) && q < k < |at| && messages[q].Query?
    ensures var id, replies := at[q].next, at[k].replies;
      && (id in at[k].pending <==> !(exists i :: 0 <= i < |replies| && replies[i].id == id))
      && (forall i, j :: 0 <= i < j < |replies| ==> replies[i].id != replies[j].id)
      && (id in at[k].pending ==> SomeRead(at[k].locks, at[k].pending[id].chunks))
  {
    hide Owed, Unread;
    var id, b := at[q].next, at[k];
    assert Step(messages[q], effects[q], at[q], at[q + 1]);
    RepliesGrow(at, messages, effects, q + 1, k);
    assert Sane(b) && id < b.next;
    assert id in b.pending.Keys + Answered(b.replies);
    if id in Answered(b.replies) {
      var i := AnsweredAt(b.replies, id);
      assert b.replies[i].id == id;
    }
    forall i | 0 <= i < |b.replies|
      ensures b.replies[i].id in Answered(b.replies)
    {
      AnsweredBy(b.replies, i);
    }
  }

  function Queries(messages: seq<Message>): nat {
    if messages == [] then 0 else Queries(messages[..|messages| - 1]) + if messages[|messages| - 1].Query? then 1 else 0
  }

  lemma {:induction false} NextCounts(at: seq<Moment>, messages: seq<Message>, effects: seq<Effect>, k: nat)
    requires Chain(at, messages, effects) && k < |at|
    ensures at[k].next == at[0].next + Queries(messages[..k])
  {
    if k > 0 {
      hide Sane, Step;
      NextCounts(at, messages, effects, k - 1);
      assert messages[..k][..k - 1] == messages[..k - 1];
      StepGrows(messages[k - 1], effects[k - 1], at[k - 1], at[k]);
    }
  }

  // When nothing is refused

  ghost function AllSizes(messages: seq<Message>): nat {
    if messages == [] then 0 else AllSizes(messages[..|messages| - 1]) + Size(messages[|messages| - 1])
  }

  lemma SizesNext(messages: seq<Message>, k: nat)
    requires k < |messages|
    ensures AllSizes(messages[..k + 1]) == AllSizes(messages[..k]) + Size(messages[k])
  {
    assert messages[..k + 1][..k] == messages[..k];
  }

  lemma StepSpace(m: Message, e: Effect, a: Moment, b: Moment)
    requires Step(m, e, a, b)
    ensures Roomy(a, b, Size(m))
  {
  }

  lemma RoomyTwice(a: Moment, b: Moment, c: Moment, n: nat, m: nat)
    requires Roomy(a, b, n) && Roomy(b, c, m)
    ensures Roomy(a, c, n + m)
  {
    Snapshots.SpentTwice(a.levels, n, b.levels, m);
  }

  lemma {:induction false} SpaceLeft(at: seq<Moment>, messages: seq<Message>, effects: seq<Effect>, k: nat)
    requires Chain(at, messages, effects) && k < |at|
    ensures Roomy(at[0], at[k], AllSizes(messages[..k]))
  {
    if k > 0 {
      hide Step, Sane, Roomy, AllSizes;
      StepSpace(messages[k - 1], effects[k - 1], at[k - 1], at[k]);
      SpaceLeft(at, messages, effects, k - 1);
      SizesNext(messages, k - 1);
      RoomyTwice(at[0], at[k - 1], at[k], AllSizes(messages[..k - 1]), Size(messages[k - 1]));
    }
  }

  lemma PlentyAt(at: seq<Moment>, messages: seq<Message>, effects: seq<Effect>, k: nat)
    requires Chain(at, messages, effects) && k < |messages| && Snapshots.Plenty(at[0].free, at[0].levels, AllSizes(messages[..k + 1]))
    ensures Snapshots.Plenty(at[k].free, at[k].levels, Size(messages[k]))
  {
    hide Snapshots.Plenty, Step, Sane, Size;
    SpaceLeft(at, messages, effects, k);
    SizesNext(messages, k);
    Snapshots.PlentyAfter(at[0].free, at[0].levels, AllSizes(messages[..k + 1]), AllSizes(messages[..k]), at[k].free, at[k].levels);
  }

  /** As long as the store is sure to have room for all that has been asked for, every request that makes
      sense takes effect and every query is granted. */
  lemma NothingRefused(at: seq<Moment>, messages: seq<Message>, effects: seq<Effect>, k: nat)
    requires Chain(at, messages, effects) && k < |messages| && Snapshots.Plenty(at[0].free, at[0].levels, AllSizes(messages[..k + 1]))
    ensures messages[k].Other? ==> (effects[k].Took? <==> Snapshots.Allowed(messages[k].op, at[k].view))
    ensures messages[k].Query? ==> if at[k].next in at[k + 1].pending then at[k + 1].pending[at[k].next].ok
      else Reply(at[k].next, true, messages[k].chunks) in at[k + 1].replies
  {
    hide Snapshots.Plenty, Snapshots.Allowed;
    PlentyAt(at, messages, effects, k);
    var a, b, id := at[k], at[k + 1], at[k].next;
    assert Step(messages[k], effects[k], a, b) && Sane(a) && Sane(b);
    KnownIds(a);
    if messages[k].Query? && id !in b.pending {
      assert id in b.pending.Keys + Answered(b.replies);
      var i := AnsweredAt(b.replies, id);
      assert Due(messages[k], a, id, b.replies[i].ok, b.replies[i].chunks);
    }
  }

  lemma SaneNow(server: LockServer)
    requires server.Valid()
    ensures Sane(Now(server))
  {
    hide Matched, Permitted, AllReady, Unread, Pinned, Once, Owed, Snapshots.Server.Sound;
    forall id | id in server.pending
      ensures SomeRead(server.locks, server.pending[id].chunks)
    {
      var c := WaitsSomewhere(server.locks, server.pending, server.records, id);
      var i :| 0 <= i < |server.pending[id].chunks| && server.pending[id].chunks[i] == c;
    }
  }

  lemma ReadingHolds(locks: Locks, d: nat, x: nat, c: nat, client: nat)
    ensures Holds(Reading(locks, d, x), c, client) == Holds(locks, c, client) + if c == d && client == x then 1 else 0
  {
  }

  lemma MinusHolds(holds: seq<nat>, x: nat, client: nat)
    ensures multiset(Minus(holds, x))[client] == multiset(holds)[client] - if client == x && x in holds then 1 else 0
    ensures Minus(holds, x) == [] ==> multiset(Minus(holds, x))[client] == 0
  {
    hide Minus;
    MinusCount(holds, x);
  }

  lemma LeavingHolds(locks: Locks, d: nat, x: nat, c: nat, client: nat)
    requires d in locks
    ensures Holds(Leaving(locks, d, x), c, client)
         == if c == d && client == x && Holds(locks, c, client) > 0 then Holds(locks, c, client) - 1 else Holds(locks, c, client)
  {
    hide Minus;
    if c == d {
      MinusHolds(locks[d].holds, x, client);
    }
  }

  /** A write is asked for. */
  method TakeQuery(server: LockServer, chunks: seq<nat>)
    requires server.Valid() && Plain(Query(chunks))
    modifies server, server.srv, server.srv.bt
    ensures server.Valid() && Step(Query(chunks), None, old(Now(server)), Now(server))
  {
    hide LockServer.Steady, Permitted, Safe, Granting;
    ghost var a, m := Now(server), Query(chunks);
    StepUnused(server);
    var ok := server.QueryWrite(chunks);
    ghost var b := Now(server);
    assert b.replies[|a.replies|..] == if a.next in b.pending then [] else [b.replies[|a.replies|]];
    if a.next !in b.pending {
      GrantsMore(a.granted, [], b.replies[|a.replies|]);
      assert [] + [b.replies[|a.replies|]] == [b.replies[|a.replies|]];
    }
  }

  lemma StepUnused(server: LockServer)
    requires server.Valid()
    ensures server.next !in server.pending
  {
    hide Matched, Permitted, Safe, Pinned, Once, Owed, Snapshots.Server.Sound;
    NextUnused(server.replies, server.pending.Keys, server.next);
  }

  /** A reader asks where its snapshot's data is. */
  method TakeRead(server: LockServer, tag: nat, chunk: nat, client: nat) returns (effect: Effect)
    requires server.Valid() && Plain(Read(tag, chunk, client))
    modifies server, server.srv, server.srv.bt
    ensures server.Valid() && Step(Read(tag, chunk, client), effect, old(Now(server)), Now(server))
  {
    hide LockServer.Steady, Permitted, Safe, Lookup, Resolve, Reading, Snapshots.Server.Sound;
    ghost var a, m := Now(server), Read(tag, chunk, client);
    effect := None;
    var found, s := FindSnap(server, tag);
    if found {
      ServerFinds(server, s, chunk);
      var place := server.ReadChunk(server.srv.snaps[s].bit, chunk, client);
      match place {
        case OnOrigin => effect := Shared;
        case InStore(address) => effect := Local(At(server.srv.data, address));
      }
      forall c, x
        ensures Holds(server.locks, c, x) == Kept(m, effect, c, x, Holds(a.locks, c, x))
      {
        ReadingHolds(a.locks, chunk, client, c, x);
      }
    }
    SameReplies(a.granted, a.replies);
  }

  lemma SameReplies(granted: map<nat, seq<nat>>, replies: seq<Reply>)
    ensures Grants(granted, replies[|replies|..]) == granted
  {
  }

  lemma ServerFinds(server: LockServer, s: nat, chunk: nat)
    requires server.Valid() && s < |server.srv.snaps|
    ensures var srv := server.srv;
      && srv.snaps[s].tag in srv.view.snaps && srv.view.origin == srv.origin
      && Fetched(Resolve(Lookup(srv.Versions(), chunk), srv.snaps[s].bit), srv.data, srv.origin, chunk) == At(srv.view.snaps[srv.snaps[s].tag], chunk)
  {
    hide Matched, Permitted, Safe, Pinned, Once, Owed, Snapshots.Server.Sound;
    server.srv.Finds(s, chunk);
    server.srv.SoundOrigin();
  }

  /** A reader has read a chunk of the origin. */
  method TakeRelease(server: LockServer, chunk: nat, client: nat)
    requires server.Valid() && !Outside(server, Release(chunk, client))
    modifies server, server.srv, server.srv.bt
    ensures server.Valid() && Step(Release(chunk, client), None, old(Now(server)), Now(server))
  {
    hide LockServer.Steady, Permitted, Safe, Leaving, Grants, Unread;
    ghost var a := Now(server);
    if chunk in server.locks {
      server.ReleaseChunk(chunk, client);
      forall c, x
        ensures Holds(server.locks, c, x) == Kept(Release(chunk, client), None, c, x, Holds(a.locks, c, x))
      {
        LeavingHolds(a.locks, chunk, client, c, x);
      }
    } else {
      SameReplies(a.granted, a.replies);
    }
  }

  /** A client does a write it was granted, if it was, or any other request. */
  method TakeRequest(server: LockServer, m: Message) returns (effect: Effect)
    requires server.Valid() && Plain(m) && !Outside(server, m) && (m.Do? || m.Other?)
    modifies server, server.srv, server.srv.bt
    ensures server.Valid() && Step(m, effect, old(Now(server)), Now(server))
  {
    hide LockServer.Steady, Permitted, Safe, Written, Settled, Lookup, Resolve, Grants, Snapshots.Allowed, Snapshots.Plenty;
    ghost var a := Now(server);
    effect := None;
    match m {
      case Do(id, values) =>
        if id in server.granted && |values| == |server.granted[id]| {
          effect := Took(OriginWrite(server.granted[id], values));
          server.ClientWrite(id, values);
        }
        SameReplies(Undone(a.granted, m, effect), a.replies);
      case Other(op) =>
        var ok := server.OtherRequest(op);
        if ok {
          effect := Took(op);
        }
        SameReplies(a.granted, a.replies);
    }
  }

  /** One message. */
  method Handle(server: LockServer, m: Message) returns (effect: Effect)
    requires server.Valid() && Plain(m) && !Outside(server, m)
    modifies server, server.srv, server.srv.bt
    ensures server.Valid() && Step(m, effect, old(Now(server)), Now(server))
  {
    hide LockServer.Steady, Permitted, Safe, Step;
    effect := None;
    match m {
      case Query(chunks) => TakeQuery(server, chunks);
      case Read(tag, chunk, client) => effect := TakeRead(server, tag, chunk, client);
      case Release(chunk, client) => TakeRelease(server, chunk, client);
      case _ => effect := TakeRequest(server, m);
    }
  }

  /** Any run of messages, up to one that it stops before. Each message takes the server by a step that
      fits it from one moment to the next, and so over the whole run a snapshot that no request addresses
      stays what it is, a reader that was told to read the origin finds what its snapshot was for as long
      as it holds the chunk, and writes are those that were asked for and granted. */
  method Serve(server: LockServer, messages: seq<Message>) returns (done: nat, ghost effects: seq<Effect>, ghost at: seq<Moment>)
    requires server.Valid() && forall i :: 0 <= i < |messages| ==> Plain(messages[i])
    modifies server, server.srv, server.srv.bt
    ensures server.Valid() && done <= |messages| && (done < |messages| ==> Outside(server, messages[done]))
    ensures Chain(at, messages[..done], effects) && at[0] == old(Now(server)) && at[done] == Now(server)
    ensures server.next == old(server.next) + Queries(messages[..done])
    ensures forall id :: id in server.pending ==> SomeRead(server.locks, server.pending[id].chunks)
    ensures forall tag :: tag in old(server.srv.view).snaps && (forall k :: 0 <= k < done ==> !Addresses(messages[k], tag)) ==>
      tag in server.srv.view.snaps && server.srv.view.snaps[tag] == old(server.srv.view).snaps[tag]
  {
    hide LockServer.Steady, Permitted, Safe, Plain, Step, Sane;
    done, effects, at := 0, [], [Now(server)];
    SaneNow(server);
    while done < |messages|
      invariant done <= |messages| && server.Valid() && Chain(at, messages[..done], effects)
      invariant at[0] == old(Now(server)) && at[done] == Now(server)
    {
      if Outside(server, messages[done]) {
        break;
      }
      var effect := Handle(server, messages[done]);
      SaneNow(server);
      ChainNext(at, messages[..done], effects, Now(server), messages[done], effect);
      assert messages[..done + 1] == messages[..done] + [messages[done]];
      effects, at := effects + [effect], at + [Now(server)];
      done := done + 1;
    }
    Ending(at, messages[..done], effects, done);
  }

  lemma Ending(at: seq<Moment>, messages: seq<Message>, effects: seq<Effect>, done: nat)
    requires Chain(at, messages, effects) && done == |messages|
    ensures at[done].next == at[0].next + Queries(messages)
    ensures forall id :: id in at[done].pending ==> SomeRead(at[done].locks, at[done].pending[id].chunks)
    ensures forall tag :: tag in at[0].view.snaps && (forall k :: 0 <= k < done ==> !Addresses(messages[k], tag)) ==>
      tag in at[done].view.snaps && at[done].view.snaps[tag] == at[0].view.snaps[tag]
  {
    NextCounts(at, messages, effects, done);
    assert messages[..done] == messages;
    assert Sane(at[done]);
    hide Step, Sane, Addresses;
    forall tag | tag in at[0].view.snaps && forall k :: 0 <= k < done ==> !Addresses(messages[k], tag)
      ensures tag in at[done].view.snaps && at[done].view.snaps[tag] == at[0].view.snaps[tag]
    {
      Untouched(at, messages, effects, 0, done, tag);
    }
  }

  /** The snapshot that a client has identified itself for. */
  method FindSnap(server: LockServer, tag: nat) returns (found: bool, s: nat)
    requires server.Valid()
    ensures found <==> tag in server.srv.view.snaps
    ensures found ==> s < |server.srv.snaps| && server.srv.snaps[s].tag == tag && server.srv.snaps[s].bit in server.srv.mask
  {
    s := server.srv.Find(tag);
    found := s < |server.srv.snaps|;
    if found {
      Snapshots.SnapBit(server.srv.bt, server.srv, s);
    }
  }

  /** A store with room for a copy. */
  ghost predicate Ample(space: set<nat>, leaf: nat, node: nat) {
    leaf != node && {leaf, node} <= space && |space| > Snapshots.RESERVE + 2 && forall a :: a in space ==> 0 < a < HIGH
  }

  /** One snapshot of any origin, in a new store. */
  method OneSnapshot(origin: Disk, space: set<nat>, leaf: nat, node: nat) returns (srv: Snapshots.Server)
    requires Ample(space, leaf, node)
    ensures fresh(srv) && fresh(srv.bt) && srv.Valid() && srv.Versions() == [] && srv.bt.levels == 1 && |srv.free| > Snapshots.RESERVE
    ensures |srv.snaps| == 1 && srv.snaps[0].bit in srv.mask && srv.view.snaps.Keys == {1}
  {
    hide Snapshots.Server.Sound;
    srv := new Snapshots.Server(origin, space, 128, 2, leaf, node);
    assert |space - {leaf, node}| == |space| - |{leaf, node}|;
    var ok, first := srv.CreateSnapshot(1);
  }

  /** One reader of a chunk through that snapshot, and one write that waits for it. */
  method OneWaits(srv: Snapshots.Server, c: nat, client: nat) returns (server: LockServer)
    requires srv.Valid() && srv.Versions() == [] && srv.bt.levels == 1 && |srv.free| > Snapshots.RESERVE && c < TreeSpec.LIMIT
    requires |srv.snaps| == 1 && srv.snaps[0].bit in srv.mask
    modifies srv, srv.bt
    ensures fresh(server) && server.srv == srv && server.Valid() && server.replies == [] && server.next == 1
    ensures server.locks.Keys == {c} && server.locks[c].holds == [client]
    ensures 0 in server.pending && server.pending[0].ok && server.pending[0].chunks == [c]
    ensures srv.snaps == old(srv.snaps) && srv.view == old(srv.view)
  {
    hide Resolve, Lookup, Permitted, Safe, LockServer.Steady, Snapshots.Server.Sound;
    server := new LockServer(srv);
    NoVersion(c, srv.snaps[0].bit);
    var place := server.ReadChunk(srv.snaps[0].bit, c, client);
    assert [client] + [] == [client];
    assert Snapshots.Plenty(|srv.free| - 4, 2, 0) && Snapshots.Plenty(|srv.free|, 1, 1);
    var ok := server.QueryWrite([c]);
    assert [c][0] in server.locks;
  }

  /** A snapshot is created while a write waits for a chunk: whatever the origin, the store, the chunk
      and the client, the write is granted in the end although the new snapshot has no version of the
      chunk and would see it change. */
  method GrantedWithoutCopy(origin: Disk, space: set<nat>, leaf: nat, node: nat, c: nat, client: nat) returns (server: LockServer, reply: Reply, ghost bit: nat)
    requires Ample(space, leaf, node) && c < TreeSpec.LIMIT
    ensures reply in server.replies && reply.ok && reply.chunks == [c]
    ensures bit in server.srv.mask && Resolve(Lookup(server.srv.Versions(), c), bit) == OnOrigin
  {
    hide Resolve, Lookup, Told, Permitted, Safe, Settled, LockServer.Steady, Ample, Snapshots.Server.Sound;
    var srv := OneSnapshot(origin, space, leaf, node);
    server := OneWaits(srv, c, client);
    ghost var waiting, granted := server.pending, server.granted;
    var ok := server.OtherRequest(Create(2));
    bit :| bit in srv.mask && forall d :: Resolve(Lookup(srv.Versions(), d), bit) == OnOrigin;
    server.ReleaseChunk(c, client);
    assert server.locks == map[];
    reply := LastReply(server, waiting, granted);
  }

  lemma NoVersion(c: nat, bit: nat)
    ensures Resolve(Lookup([], c), bit) == OnOrigin
  {
  }

  /** With no lock left, the write that waited has been answered. */
  method LastReply(server: LockServer, ghost waiting: map<nat, Pending>, ghost granted: map<nat, seq<nat>>) returns (reply: Reply)
    requires server.Steady() && server.locks == map[] && 0 in waiting && server.next > 0
    requires Told(waiting, server.pending, [], server.replies, granted, server.granted, server.locks)
    ensures reply in server.replies && reply.ok == waiting[0].ok && reply.chunks == waiting[0].chunks
  {
    hide Matched, Unread, Snapshots.Server.Sound;
    assert 0 in server.pending.Keys + Answered(server.replies);
    NoneLeft(server.pending, server.records);
    ghost var k := AnsweredAt(server.replies, 0);
    var i: nat := 0;
    while server.replies[i].id != 0
      invariant i <= k
      decreases |server.replies| - i
    {
      i := i + 1;
    }
    reply := server.replies[i];
  }

  lemma NoneLeft(pending: map<nat, Pending>, records: map<nat, multiset<nat>>)
    requires Matched(map[], pending, records, {}) && Alive(pending)
    ensures pending.Keys == {}
  {
    hide Matched, Alive;
    if id :| id in pending {
      var c := WaitsSomewhere(map[], pending, records, id);
      assert false;
    }
  }
}
