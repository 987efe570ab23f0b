/** An origin volume and its snapshots: what clients see, and how chunks are copied out. */
module Volume {
  import opened Exceptions
  import opened Sharing
  import opened Ledger
  import opened Devices
  import TreeSpec

  function Put(disk: Disk, c: nat, v: Data): Disk {
    disk[c := v]
  }

  // What clients see

  /** The origin, and what each snapshot, by its tag, is. */
  datatype View = View(origin: Disk, snaps: map<nat, Disk>)

  datatype Op =
    | Create(tag: nat)
    | Delete(tag: nat)
    | OriginWrite(chunks: seq<nat>, values: seq<Data>)
    | SnapshotWrite(tag: nat, chunks: seq<nat>, values: seq<Data>)

  /** A disk after a request has written its chunks in turn. */
  function Written(disk: Disk, chunks: seq<nat>, values: seq<Data>): Disk
    requires |chunks| == |values|
  {
    if chunks == [] then disk
    else Written(disk, chunks[..|chunks| - 1], values[..|chunks| - 1])[chunks[|chunks| - 1] := values[|chunks| - 1]]
  }

  /** A write has a value for each of its chunks. */
  predicate WellFormed(op: Op) {
    op.OriginWrite? || op.SnapshotWrite? ==> |op.chunks| == |op.values|
  }

  /** Its chunks can be recorded. */
  predicate InRange(op: Op) {
    op.OriginWrite? || op.SnapshotWrite? ==> forall i :: 0 <= i < |op.chunks| ==> op.chunks[i] < TreeSpec.LIMIT
  }

  /** What an operation means: a new snapshot is the origin as it is at that moment, and a write
      changes only the volume it goes to. */
  function After(v: View, op: Op): View
    requires WellFormed(op)
  {
    match op
    case Create(tag) => v.(snaps := v.snaps[tag := v.origin])
    case Delete(tag) => v.(snaps := v.snaps - {tag})
    case OriginWrite(chunks, values) => v.(origin := Written(v.origin, chunks, values))
    case SnapshotWrite(tag, chunks, values) =>
      if tag in v.snaps then v.(snaps := v.snaps[tag := Written(v.snaps[tag], chunks, values)]) else v
  }

  /** What a run means: the operations that were granted, one after the other. */
  function Outcome(v: View, ops: seq<Op>, oks: seq<bool>): View
    requires |ops| == |oks| && forall i :: 0 <= i < |ops| ==> WellFormed(ops[i])
  {
    if ops == [] then v
    else
      var n := |ops| - 1;
      var before := Outcome(v, ops[..n], oks[..n]);
      if oks[n] then After(before, ops[n]) else before
  }

  lemma {:induction false} WrittenElsewhere(disk: Disk, chunks: seq<nat>, values: seq<Data>, c: nat)
    requires |chunks| == |values| && c !in chunks
    ensures At(Written(disk, chunks, values), c) == At(disk, c)
  {
    if chunks != [] {
      var n := |chunks| - 1;
      WrittenElsewhere(disk, chunks[..n], values[..n], c);
    }
  }

  /** Position `k` is the last one of the request for its chunk. */
  ghost predicate LastFor(chunks: seq<nat>, k: nat) {
    k < |chunks| && forall j :: k < j < |chunks| ==> chunks[j] != chunks[k]
  }

  /** Every chunk gets its own value, the last one if it is named twice. */
  lemma {:induction false} WrittenHere(disk: Disk, chunks: seq<nat>, values: seq<Data>, k: nat)
    requires |chunks| == |values| && LastFor(chunks, k)
    ensures At(Written(disk, chunks, values), chunks[k]) == values[k]
  {
    var n := |chunks| - 1;
    if k < n {
      assert chunks[..n][k] == chunks[k] && values[..n][k] == values[k];
      WrittenHere(disk, chunks[..n], values[..n], k);
    }
  }

  predicate Concerns(op: Op, tag: nat) {
    !op.OriginWrite? && op.tag == tag
  }

  /** Nothing but its own writes changes a snapshot, whatever happens to the origin and to others. */
  lemma {:induction false} Isolated(v: View, ops: seq<Op>, oks: seq<bool>, tag: nat)
    requires |ops| == |oks| && forall i :: 0 <= i < |ops| ==> WellFormed(ops[i])
    requires tag in v.snaps && forall i :: 0 <= i < |ops| ==> !Concerns(ops[i], tag)
    ensures tag in Outcome(v, ops, oks).snaps && Outcome(v, ops, oks).snaps[tag] == v.snaps[tag]
  {
    if ops != [] {
      var n := |ops| - 1;
      Isolated(v, ops[..n], oks[..n], tag);
      assert !Concerns(ops[n], tag);
    }
  }

  // What a read gives after a run

  /** The request leaves a chunk of the origin alone. */
  predicate SparesOrigin(op: Op, c: nat) {
    op.OriginWrite? ==> c !in op.chunks
  }

  /** The request leaves a chunk of a snapshot alone. */
  predicate Spares(op: Op, tag: nat, c: nat) {
    Concerns(op, tag) ==> op.SnapshotWrite? && c !in op.chunks
  }

  lemma OutcomeNext(v: View, ops: seq<Op>, oks: seq<bool>, n: nat)
    requires n < |ops| == |oks| && forall i :: 0 <= i < |ops| ==> WellFormed(ops[i])
    ensures Outcome(v, ops[..n + 1], oks[..n + 1])
         == if oks[n] then After(Outcome(v, ops[..n], oks[..n]), ops[n]) else Outcome(v, ops[..n], oks[..n])
  {
    assert ops[..n + 1][..n] == ops[..n] && oks[..n + 1][..n] == oks[..n];
  }

  /** After a run the origin has in a chunk what the last request granted for it wrote there. */
  lemma {:induction false} OriginReads(v: View, ops: seq<Op>, oks: seq<bool>, n: nat, k: nat, end: nat)
    requires n < end <= |ops| == |oks| && forall i :: 0 <= i < |ops| ==> WellFormed(ops[i])
    requires oks[n] && ops[n].OriginWrite? && LastFor(ops[n].chunks, k)
    requires forall i :: n < i < end && oks[i] ==> SparesOrigin(ops[i], ops[n].chunks[k])
    ensures At(Outcome(v, ops[..end], oks[..end]).origin, ops[n].chunks[k]) == ops[n].values[k]
    decreases end
  {
    hide Written, Outcome;
    OutcomeNext(v, ops, oks, end - 1);
    var before := Outcome(v, ops[..end - 1], oks[..end - 1]);
    var op := ops[end - 1];
    if n == end - 1 {
      WrittenHere(before.origin, op.chunks, op.values, k);
    } else {
      OriginReads(v, ops, oks, n, k, end - 1);
      if oks[end - 1] && op.OriginWrite? {
        WrittenElsewhere(before.origin, op.chunks, op.values, ops[n].chunks[k]);
      }
    }
  }

  /** What a chunk of a snapshot is, it stays while the requests granted leave it alone. */
  lemma {:induction false} SnapshotStays(v: View, ops: seq<Op>, oks: seq<bool>, n: nat, end: nat, tag: nat, c: nat)
    requires n <= end <= |ops| == |oks| && forall i :: 0 <= i < |ops| ==> WellFormed(ops[i])
    requires tag in Outcome(v, ops[..n], oks[..n]).snaps && forall i :: n <= i < end && oks[i] ==> Spares(ops[i], tag, c)
    ensures tag in Outcome(v, ops[..end], oks[..end]).snaps
    ensures At(Outcome(v, ops[..end], oks[..end]).snaps[tag], c) == At(Outcome(v, ops[..n], oks[..n]).snaps[tag], c)
    decreases end
  {
    hide Written, Outcome;
    if n < end {
      OutcomeNext(v, ops, oks, end - 1);
      SnapshotStays(v, ops, oks, n, end - 1, tag, c);
      var before, op := Outcome(v, ops[..end - 1], oks[..end - 1]), ops[end - 1];
      if oks[end - 1] && op.SnapshotWrite? && op.tag == tag {
        WrittenElsewhere(before.snaps[tag], op.chunks, op.values, c);
      }
    }
  }

  /** After a run a snapshot has in a chunk what the last request granted for it wrote there. */
  lemma SnapshotReads(v: View, ops: seq<Op>, oks: seq<bool>, n: nat, k: nat)
    requires n < |ops| == |oks| && forall i :: 0 <= i < |ops| ==> WellFormed(ops[i])
    requires oks[n] && ops[n].SnapshotWrite? && LastFor(ops[n].chunks, k)
    requires ops[n].tag in Outcome(v, ops[..n], oks[..n]).snaps
    requires forall i :: n < i < |ops| && oks[i] ==> Spares(ops[i], ops[n].tag, ops[n].chunks[k])
    ensures ops[n].tag in Outcome(v, ops, oks).snaps
    ensures At(Outcome(v, ops, oks).snaps[ops[n].tag], ops[n].chunks[k]) == ops[n].values[k]
  {
    hide Written, Outcome;
    OutcomeNext(v, ops, oks, n);
    WrittenHere(Outcome(v, ops[..n], oks[..n]).snaps[ops[n].tag], ops[n].chunks, ops[n].values, k);
    SnapshotStays(v, ops, oks, n + 1, |ops|, ops[n].tag, ops[n].chunks[k]);
    assert ops[..|ops|] == ops && oks[..|ops|] == oks;
  }

  /** If nothing was written there since, it has what the origin had when the snapshot was created. */
  lemma CreatedReads(v: View, ops: seq<Op>, oks: seq<bool>, n: nat, c: nat)
    requires n < |ops| == |oks| && forall i :: 0 <= i < |ops| ==> WellFormed(ops[i])
    requires oks[n] && ops[n].Create? && forall i :: n < i < |ops| && oks[i] ==> Spares(ops[i], ops[n].tag, c)
    ensures ops[n].tag in Outcome(v, ops, oks).snaps
    ensures At(Outcome(v, ops, oks).snaps[ops[n].tag], c) == At(Outcome(v, ops[..n], oks[..n]).origin, c)
  {
    hide Outcome;
    OutcomeNext(v, ops, oks, n);
    SnapshotStays(v, ops, oks, n + 1, |ops|, ops[n].tag, c);
    assert ops[..|ops|] == ops && oks[..|ops|] == oks;
  }

  // How it is stored

  /** What a snapshot finds: its version in the store, or else the origin. */
  ghost function Seen(es: Entries, data: Disk, origin: Disk, bit: nat, c: nat): Data {
    Fetched(Resolve(Lookup(es, c), bit), data, origin, c)
  }

  ghost function Fetched(place: Place, data: Disk, origin: Disk, c: nat): Data {
    match place
    case OnOrigin => At(origin, c)
    case InStore(a) => At(data, a)
  }

  /** The place that the request's own copy is made from. */
  ghost function From(es: Entries, writer: Writer, c: nat): Place {
    match writer
    case Origin => OnOrigin
    case Snapshot(bit) => Resolve(Lookup(es, c), bit)
  }

  lemma ResolveUsed(list: seq<Exception>, bit: nat)
    requires Resolve(list, bit).InStore?
    ensures Resolve(list, bit).address in Addresses(list)
  {
    var k := FirstShared(list, bit);
  }

  /** Copying a chunk out changes what nobody sees. */
  lemma CopySeen(es: Entries, data: Disk, origin: Disk, writer: Writer, active: Mask, chunk: nat, n: nat, b: nat, c: nat)
    requires Sorted(es) && n !in Used(es) && b in active
    ensures var r := WithException(es, chunk, n, writer, active);
      var d := data[n := Fetched(From(es, writer, chunk), data, origin, chunk)];
      Seen(r, d, origin, b, c) == Seen(es, data, origin, b, c)
  {
    hide Lookup, WithException, WithVersion, AllShares, Resolve, Used, Addresses;
    WithExceptionLookup(es, chunk, n, writer, active, c);
    LookupUsed(es, c);
    if Resolve(Lookup(es, c), b).InStore? {
      ResolveUsed(Lookup(es, c), b);
    }
    if c == chunk {
      match writer {
        case Origin =>
          OriginVersionResolve(Lookup(es, chunk), n, active, b);
          SharedByOne(Lookup(es, chunk), b);
        case Snapshot(bit) =>
          SnapshotVersionResolve(Lookup(es, chunk), n, bit, active, b);
      }
    }
  }

  /** Once every snapshot has its own version, nobody sees a write to the origin. */
  lemma OriginWriteSeen(es: Entries, data: Disk, origin: Disk, active: Mask, chunk: nat, v: Data, b: nat, c: nat)
    requires Ready(es, chunk, Origin, active) && b in active
    ensures Seen(es, data, origin[chunk := v], b, c) == Seen(es, data, origin, b, c)
  {
    if c == chunk {
      SharedByOne(Lookup(es, chunk), b);
    }
  }

  /** A version that one snapshot has to itself is seen by that snapshot only, in that place only. */
  lemma SoleWriteSeen(es: Entries, data: Disk, origin: Disk, active: Mask, bit: nat, chunk: nat, v: Data, b: nat, c: nat)
    requires Books(es, active) && Ready(es, chunk, Snapshot(bit), active)
    ensures Resolve(Lookup(es, chunk), bit).InStore?
    ensures var d := data[Resolve(Lookup(es, chunk), bit).address := v];
      Seen(es, d, origin, b, c) == if b == bit && c == chunk then v else Seen(es, data, origin, b, c)
  {
    hide Lookup, AllShares, Resolve, Sole, Addresses;
    var list := Lookup(es, chunk);
    assert Proper(list, active) && Unrepeated(list);
    var k := FirstShared(list, bit);
    ResolveUsed(list, bit);
    if Resolve(Lookup(es, c), b).InStore? {
      ResolveUsed(Lookup(es, c), b);
      if c == chunk {
        var j := FirstShared(list, b);
      } else {
        assert Addresses(Lookup(es, c)) !! Addresses(list);
      }
    }
  }

  /** The snapshots that remain see what they saw. */
  lemma RemovalSeen(es: Entries, data: Disk, origin: Disk, gone: Mask, b: nat, c: nat)
    requires Sorted(es) && b !in gone
    ensures Seen(WithoutSnapshots(es, gone), data, origin, b, c) == Seen(es, data, origin, b, c)
  {
    hide Lookup, WithoutSnapshots, Without, Resolve;
    WithoutSnapshotsLookup(es, gone, c);
    WithoutResolve(Lookup(es, c), gone, b);
  }

  /** A snapshot nobody has versions for yet is the origin. */
  lemma NewSeen(es: Entries, data: Disk, origin: Disk, mask: Mask, b: nat, c: nat)
    requires Books(es, mask) && b !in mask
    ensures Seen(es, data, origin, b, c) == At(origin, c)
  {
    hide Lookup;
    var list := Lookup(es, c);
    assert Proper(list, mask);
    SharedByOne(list, b);
  }

  // Copies waiting to be made

  /** A chunk of the store, as a source of a copy, is marked by the highest bit of its address. */
  const HIGH := 0x8000_0000_0000_0000

  function Fetch(data: Disk, origin: Disk, source: nat): Data {
    if source >= HIGH then At(data, source - HIGH) else At(origin, source)
  }

  /** The store once `n` waiting copies of consecutive chunks have been made. */
  ghost function Copied(data: Disk, origin: Disk, source: nat, dest: nat, n: nat): Disk {
    if n == 0 then data else Copied(data, origin, source, dest, n - 1)[dest + n - 1 := Fetch(data, origin, source + n - 1)]
  }

  lemma {:induction false} CopiedAt(data: Disk, origin: Disk, source: nat, dest: nat, n: nat, a: nat)
    ensures At(Copied(data, origin, source, dest, n), a)
         == if dest <= a < dest + n then Fetch(data, origin, source + (a - dest)) else At(data, a)
  {
    if n > 0 {
      CopiedAt(data, origin, source, dest, n - 1, a);
    }
  }
}
