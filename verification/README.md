# Zumastor storage core: a verified model

This project models the stateful cores of the ddsnap snapshot server, its xdelta3 delta encoder and the
ddraid array, and proves what they are for.

- **Copy-on-write snapshots** (`Exceptions`, `PackedLeaf`, `TreeSpec`, `ExceptionTree`, `TreeLookup`,
  `DeleteWalk`, `DeleteSnapshots`, `Density`, `Walker`, `DeepTrees`, `Sharing`, `Ledger`, `Volume`,
  `Snapshots`). A B-tree of packed leaf blocks maps a logical chunk to its copied-out versions, each
  with a mask of the snapshots that share it. The leaf is edited in place on its two growing regions,
  the tree through splits and merges of any leaf and index block, and the server's requests on top of
  both. The main result is `Snapshots.Server.Run`: after any run of requests, every live snapshot reads
  the origin as it was when the snapshot was created, with only its own writes over it. Sharing masks
  stay nonempty, pairwise disjoint and within the mask of live snapshots, and every chunk of the store
  is exactly one of free, a tree block, or the place of one version.
- **Read locks** (`SnapLocks`, `LockRuns`), on top of the same server: a write to the origin is answered
  only when none of its chunks is being read by a snapshot client, exactly once, and not forgotten. The
  main result is `LockRuns.Serve` with the lemmas on its runs: every message takes the server by a step
  that fits it, and at every moment of any run of reads, releases, writes and other requests a client
  that was told to read the origin finds there what its snapshot was, for as long as it holds the chunk
  (`LockRuns.ReadStable`), and what is written to the origin is what was asked for and granted before
  (`LockRuns.WriteAsAsked`, `LockRuns.DoneOnce`).
- **Change lists** (`Changelist`): the stack-driven walk over the tree lists exactly the chunks in which
  two snapshots differ.
- **Space and durability** (`Allocator`, `JournalScan`, `BufferCache`, `Sequences`, `Cardinality`,
  `Devices`): the bitmap allocator with deferred ranges, the journal ring's recovery scan, and the
  buffer cache as a refinement of a flat disk.
- **VCDIFF** (`Bytes`, `Varint`, `CodeTable`, `AddressCache`, `Matches`, `VcdiffDecoder`,
  `VcdiffEncoder`, `Adler32`): the window encoder and decoder of RFC 3284 with the default code table,
  address caches, opcode pairing, self-overlapping copies and the queue that resolves overlapping
  matches. The main results are `VcdiffEncoder.RoundTrip` and `VcdiffEncoder.EncodeWindow`, which says
  that what is sent are the matches.
- **ddraid** (`Ring`, `DirtyStream`, `DirtyScan`, `DirtyLog`, `DirtyServer`, `Parity`): the dirty-region
  log in a ring of blocks, which after a crash at any moment tells exactly the regions held when it was
  last written, among them every one that was answered for in time and held since, and the in-place
  recovery of a lost fragment from parity.

A share mask is a set of bit numbers. Sizes in a leaf are counted in 8-byte map entries and offsets in
16-byte exception slots. Chunk numbers are below 2^32 and `base_chunk` is 0; the store is in combined
mode, so that tree blocks and copied-out chunks come from one space. Message passing is a method call,
and the allocator hands the snapshot server any free chunks it likes. Sequence numbers are unbounded.
Where the code and a comment disagree the model follows the code.

Four things the code does turned out to matter for what can be claimed:

- A second request for a region that is not yet logged is answered at once (ddraid/ddraid.c:500-503,
  840-844), so an answer can precede the log write. `DirtyServer.AnsweredTooSoon` gives such a run, and
  `DirtyServer.Server.Request` proves when the answer is safe: if and only if the region's entry is in
  an earlier block than the one being filled, or the first word on it in that block says clean.
- A snapshot may be created while a write waits or has been granted and is still to be done
  (ddsnap/ddsnapd.c:2660-2693 asks nothing about writes). `LockRuns.GrantedWithoutCopy` gives, for every
  origin, store, chunk and client, a run in which the write is then granted although the new snapshot
  still reads the chunk from the origin. `SnapLocks.LockServer.OtherRequest` proves when creating a
  snapshot leaves all writes safe: if and only if no write that waits or has been granted relies on any
  chunk.
- `remove_index` repairs only the nearest separator above that is not a first entry
  (ddsnap/ddsnapd.c:1822-1829), and `merge_nodes` later makes a first key that was passed over a
  separator (ddsnap/ddsnapd.c:1147-1151). `DeepTrees.LostChunk` gives trees of three index levels, for
  every number of entries a block holds, in which the walk so loses exactly the chunks of one leaf. With
  at most two levels that cannot happen and the walk is proved; it needs the first key of every index
  block that is not a first child to equal the separator before it, which insertion keeps.
- The reserve of free chunks checked before a copy (ddsnap/ddsnapd.c:71, 2531) covers trees of at most
  eight levels; the model also asks for one chunk per level. `Snapshots.Server.MakeUnique` states that
  up to eight levels this is the code's own test.

## Model

| member | source | states |
|---|---|---|
| Exceptions.WithExceptionLookup | ddsnap/ddsnapd.c:1002-1080 | a new version changes what is recorded for exactly one chunk, for every chunk asked about, and keeps the leaf sorted |
| Exceptions.WithoutSnapshotsLookup | ddsnap/ddsnapd.c:1696-1754 | removing snapshots acts on each chunk's versions separately, and a lookup afterwards is the old lookup with those snapshots removed |
| Exceptions.ReleasedAt | ddsnap/ddsnapd.c:1055-1062 | a snapshot's bit leaves exactly the first version that has it |
| PackedLeaf.FreeIsRest | ddsnap/ddsnapd.c:977-992 | free space and payload, computed from different offsets, always add up to the block |
| PackedLeaf.Leaf.OriginUnique | ddsnap/ddsnapd.c:909-924 | true just if every snapshot of the mask shares some version of the chunk |
| PackedLeaf.Leaf.SnapshotUnique | ddsnap/ddsnapd.c:931-949 | finds the version that the snapshot resolves to, and whether it shares it with nobody |
| PackedLeaf.Leaf.AddException | ddsnap/ddsnapd.c:1002-1080 | on offsets and moves in place, equals adding the version to the sorted map; reports full just if the space is short, and then leaves the leaf untouched |
| PackedLeaf.Leaf.SplitInto | ddsnap/ddsnapd.c:1092-1117 | both leaves stay well formed, the entries are cut in the middle, and the split point is the first chunk of the upper half |
| PackedLeaf.Leaf.MergeFrom | ddsnap/ddsnapd.c:1125-1142 | the entries of both leaves in order, whenever the payload fits the free space |
| PackedLeaf.SplitAndMerge | ddsnap/ddsnapd.c:1092-1142 | merging undoes splitting |
| PackedLeaf.HalvesFit | ddsnap/ddsnapd.c:977-992 | the two halves of a leaf always fit together again |
| PackedLeaf.Leaf.RemoveSnapshots | ddsnap/ddsnapd.c:1696-1754 | both compaction passes together remove the snapshots from every version and drop chunks without versions; the places freed are exactly those left without a sharer, and the flag says whether anything was shared |
| TreeSpec.ContentsOrdered | ddsnap/ddsnapd.c:1482-1508 | separators in order make the in-order contents sorted and within the tree's range |
| TreeSpec.PartWithException | ddsnap/ddsnapd.c:2284-2384 | adding a version to the leaf that covers the chunk is adding it to the whole contents |
| ExceptionTree.Btree.Probe | ddsnap/ddsnapd.c:1482-1508 | at any depth, leads to a leaf whose range covers the chunk, with the path of entries followed |
| ExceptionTree.HalfHasRoom | ddsnap/ddsnapd.c:2290-2311 | with blocks of at least 2048 bytes and at most 64 versions a chunk, each half of a full leaf has 24 bytes free |
| ExceptionTree.DivideLeaf | ddsnap/ddsnapd.c:2290-2311 | after a split the version always finds room in the half it belongs to |
| ExceptionTree.ForkAbsorbed | ddsnap/ddsnapd.c:2264-2270 | a parent with room that takes in the new child records exactly the one update, and only its own and fresh blocks change |
| ExceptionTree.ForkPassed | ddsnap/ddsnapd.c:2328-2360 | a full parent is split at the half with the child inserted on the right side, and the two halves together record exactly the one update |
| ExceptionTree.GraftUp | ddsnap/ddsnapd.c:2284-2384 | what holds of the subtree that changed holds of the whole tree, by induction up the path |
| ExceptionTree.Btree.AddException | ddsnap/ddsnapd.c:2284-2384 | through leaf split, cascading index splits and root growth at any depth, the tree's contents become the old contents with exactly that version added, the tree stays well formed, and the blocks in use grow by exactly those taken; no block is taken if the leaf has room, and otherwise one for the leaf, one for each full block above it up to the first with room, and one for a new root just if there is none |
| ExceptionTree.OverfullTo | ddsnap/ddsnapd.c:2320-2384 | counted down the path from the root, the full blocks above a leaf are those that the split passes on its way up |
| TreeLookup.TrailLookup | ddsnap/ddsnapd.c:1482-1508 | the leaf reached has everything the tree records about the chunk |
| TreeLookup.OriginUnique | ddsnap/ddsnapd.c:2586-2602 | probe and leaf search together decide whether all snapshots have their own version in the abstract map |
| TreeLookup.SnapshotUnique | ddsnap/ddsnapd.c:2586-2602 | probe and leaf search together resolve the snapshot's chunk in the abstract map |
| DeleteWalk.LeafJoin | ddsnap/ddsnapd.c:1896-1904 | a leaf merged into its neighbour and its index entry removed: the block keeps its contents and order |
| DeleteWalk.NodesJoin | ddsnap/ddsnapd.c:1147-1151 | putting one index block after another makes the second's first key a correct separator |
| DeleteSnapshots.CousinStep | ddsnap/ddsnapd.c:1800-1832 | a leaf merged across two index blocks and the pivot repaired in the parent: order, contents and blocks are kept |
| DeleteSnapshots.HollowStep | ddsnap/ddsnapd.c:1800-1815 | a block that lost its only leaf: everything else is in order, and only its root entry is left over |
| DeleteSnapshots.BlockStep | ddsnap/ddsnapd.c:1939-1947 | a finished index block merged into the one held: order and contents are kept and one block is freed |
| Walker.Walk.RemoveIndex | ddsnap/ddsnapd.c:1800-1832 | takes out the entry last followed and sets the nearest separator above that is not a first entry |
| Walker.Walk.Settle | ddsnap/ddsnapd.c:1886-1907 | merging or keeping the current leaf leaves the contents walked over and those to come unchanged, with one leaf less to go, and no leaf walked over would fit into the one before it |
| Walker.Walk.FinishBlock | ddsnap/ddsnapd.c:1920-1952 | merging or holding a finished block does the same one level up |
| Walker.Walk.DropLevels | ddsnap/ddsnapd.c:1971-1980 | a root with a single entry gives way to the block below it and nothing is lost |
| Walker.DeleteTree | ddsnap/ddsnapd.c:1861-2022 | for trees of at most two index levels: terminates, removes exactly the given snapshots from every version, frees exactly the places left without a sharer, keeps the tree well formed, and frees every block it no longer uses and no other; afterwards no leaf's payload fits the free space of the leaf before it, and no block over leaves fits into the block before it |
| Density.TightShifted | ddsnap/ddsnapd.c:1886-1907 | a leaf that absorbs the next one still does not fit into the leaf before it, also across two index blocks |
| Density.TightMerged | ddsnap/ddsnapd.c:1939-1947 | merging two index blocks leaves the leaves crowded and the block still does not fit into the one before it |
| DeepTrees.AfterLeaf | ddsnap/ddsnapd.c:1800-1832 | with three index levels, removing the first entry of a block that is itself a first child repairs the root's separator, leaves the first key between them stale, and touches no other block |
| DeepTrees.LostChunk | ddsnap/ddsnapd.c:1822-1829 | in every tree of the given shape with three index levels and any number of entries a block, the walk's own steps after the merge of the third leaf lose a chunk if and only if it has versions in that leaf: they are in the leaf before, while the way down leads to the fourth, which has none |
| DeepTrees.WalkLeadsThere | ddsnap/ddsnapd.c:1895-1912 | when the leaves are full enough, the walk's tests merge no leaf before the third one, merge that one, and leave the fourth |
| Sharing.ProperCount | ddsnap/ddsnapd.c:1051-1063 | with nonempty disjoint masks there are never more versions of a chunk than snapshots |
| Sharing.OriginVersion | ddsnap/ddsnapd.c:1051-1054 | a copy made for the origin keeps masks nonempty and disjoint and leaves every snapshot with a version |
| Sharing.SnapshotVersion | ddsnap/ddsnapd.c:1055-1062 | a copy made for a snapshot keeps masks nonempty and disjoint and gives it a version of its own |
| Sharing.WithoutOrder | ddsnap/ddsnapd.c:1696-1754 | removal keeps masks nonempty and disjoint, within the snapshots that remain |
| Sharing.OrphansRest | ddsnap/ddsnapd.c:1696-1754 | the places of a chunk's versions are divided into those still shared and those freed |
| Ledger.BooksAdded | ddsnap/ddsnapd.c:2523-2580 | adding a version at an unused place keeps every chunk's masks proper and all places distinct, and makes the chunk ready for the writer |
| Ledger.BooksRemoved | ddsnap/ddsnapd.c:1696-1754 | so does removing snapshots |
| Ledger.UsedAdded | ddsnap/ddsnapd.c:2523-2580 | the places in use grow by exactly the new one |
| Ledger.UsedRemoved | ddsnap/ddsnapd.c:1696-1754 | the places in use before a removal are those in use after it and those freed |
| Ledger.FreedUnused | ddsnap/ddsnapd.c:1722-1732 | nothing that is freed is still in use anywhere in the tree |
| Ledger.OriginReadyKept | ddsnap/ddsnapd.c:2523-2580 | once all snapshots have their own version of a chunk, later copies leave it so |
| Volume.Isolated | ddsnap/ddsnapd.c:3561-3636 | in any run of requests as they are granted, a snapshot that no request is addressed to does not change |
| Volume.WrittenHere | ddsnap/ddsnapd.c:3614-3632 | each chunk of a request gets its own value, the last one if it is named twice |
| Volume.OriginReads | ddsnap/ddsnapd.c:3561-3605 | after any run the origin has in a chunk what the last granted request for it wrote there |
| Volume.SnapshotReads | ddsnap/ddsnapd.c:3606-3636 | after any run a snapshot has in a chunk what the last granted request for it wrote there |
| Volume.CreatedReads | ddsnap/ddsnapd.c:2660-2693 | a chunk of a snapshot that was not written since is what the origin had when the snapshot was created |
| Volume.CopySeen | ddsnap/ddsnapd.c:2523-2580 | copying a chunk out and recording it changes what no snapshot sees, of any chunk |
| Volume.OriginWriteSeen | ddsnap/ddsnapd.c:909-924 | a write to a chunk found unique for the origin is seen by no snapshot |
| Volume.SoleWriteSeen | ddsnap/ddsnapd.c:931-949 | a write to a version found unique for a snapshot is seen by that snapshot, in that chunk, and by nobody else |
| Volume.RemovalSeen | ddsnap/ddsnapd.c:1861-2022 | the snapshots that remain see what they saw |
| Volume.NewSeen | ddsnap/ddsnapd.c:2660-2693 | a snapshot just given an unused bit sees the origin |
| Snapshots.Server.FinishCopyout | ddsnap/ddsnapd.c:2394-2412 | reading all batched chunks and then writing them all does what the single copies would |
| Snapshots.Server.Copyout | ddsnap/ddsnapd.c:2423-2453 | extending the batch, which happens just if the copy continues it and there is room, or flushing it and starting another has the same effect as one more copy, provided the source is not itself waiting |
| Snapshots.QuietCopy | ddsnap/ddsnapd.c:2523-2580 | within a request no waiting copy ever fills a place that the request may still copy from |
| Snapshots.Server.MakeUnique | ddsnap/ddsnapd.c:2523-2580 | keeps the whole invariant and every snapshot's view; on success the chunk is the writer's own, and chunks that were stay so; up to eight levels it succeeds just if more than the reserve is free |
| Snapshots.PlentyAfter | ddsnap/ddsnapd.c:2523-2540 | room for `n` copies at worst, where each splits every block on its path and adds a level, less what some of them took, is room for the rest |
| Snapshots.Server.WriteOrigin | ddsnap/ddsnapd.c:3561-3591 | every snapshot still reads what it did, and the origin is changed in exactly the chunks written; on failure nothing changes for anybody; if no chunk needs a copy it succeeds just if the reserve test holds, else it succeeds if there is room for all copies at worst and fails if there is none for one |
| Snapshots.Server.WriteSnapshot | ddsnap/ddsnapd.c:3606-3636 | only the written snapshot changes, in exactly the chunks written; succeeds for a known tag under the same conditions |
| Snapshots.Server.ReadSnapshot | ddsnap/ddsnapd.c:3637-3687 | the place resolved for a client holds the data the snapshot is promised |
| Snapshots.Server.CreateSnapshot | ddsnap/ddsnapd.c:2660-2693 | succeeds just if there are fewer than 64 and the tag is new; the new snapshot is the origin as it is, and its bit is the first one not in use |
| Snapshots.Server.DeleteSnapshot | ddsnap/ddsnapd.c:2078-2097 | the other snapshots and the origin read the same, and all that is no longer shared is free again |
| Snapshots.Server.Run | ddsnap/ddsnapd.c:3545-3687 | after any run of requests what clients see is exactly what the granted requests mean one after the other, and the invariant holds; a request is granted only if it makes sense at that point, and refused only if it does not or the store at the start was not sure to have room for the chunks asked for so far |
| Snapshots.RunAndRead | ddsnap/ddsnapd.c:3545-3687 | a read after any run gives the value last written to that chunk of the snapshot or, if there was none, the value last written to the origin before the snapshot was created |
| SnapLocks.WaitTaken | ddsnap/ddsnapd.c:2990-3002 | taking a record off a lock nobody holds keeps every count equal to the records left |
| SnapLocks.NoRecords | ddsnap/ddsnapd.c:2993-2999 | a write whose count is zero has no record anywhere, and none of its chunks is held |
| SnapLocks.WaitsSomewhere | ddsnap/ddsnapd.c:2988-3003 | a write that still waits has a record at the lock of one of its own chunks, so that no answer is forgotten |
| SnapLocks.NotPending | ddsnap/ddsnapd.c:3659-3687 | a chunk that a snapshot still reads from the origin is none that a write waits for |
| SnapLocks.CreateSafe | ddsnap/ddsnapd.c:2660-2693 | with proper books and a bit not in use, everything promised to writes holds of the wider mask if and only if no write relies on any chunk |
| SnapLocks.LockServer.ReadChunk | ddsnap/ddsnapd.c:2947-2966 | a snapshot reader that is sent to the origin holds the chunk, nothing else about the locks changes, and the chunk is none that a write waiting or granted relies on |
| SnapLocks.LockServer.WaitFor | ddsnap/ddsnapd.c:2918-2940 | the write gets a record at a chunk that is held, and its count keeps up, with one more while it is being set up |
| SnapLocks.LockServer.ReleaseChunk | ddsnap/ddsnapd.c:2968-3035 | one hold less, and the lock goes with the last; every write answered now gets what it asked for with none of its chunks held, and if all writes were safe, so that no snapshot needs the origin for their chunks, they still are; every write is answered once or still waits |
| SnapLocks.LockServer.QueryWrite | ddsnap/ddsnapd.c:3561-3605 | the write waits just if one of its chunks is held, with a record at every such chunk, and is answered at once otherwise, safe in either case; the holds and the other writes do not change; it is granted if the store is sure to have room for its chunks, and refused if it has none for a single one |
| SnapLocks.LockServer.ClientWrite | ddsnap/ddsnapd.c:3592-3605 | a client's write, at any time after it was granted, changes the origin in its chunks, no snapshot, and no chunk that is held |
| SnapLocks.LockServer.OtherRequest | ddsnap/ddsnapd.c:3606-3636 | the requests that do not wait keep counts, answers and held data; creating a snapshot leaves the writes safe if and only if no write waiting or granted relies on any chunk, and all other requests leave them safe |
| LockRuns.Handle | ddsnap/ddsnapd.c:3545-3716 | one message: the invariant is kept, and the old and the new moment are a step that fits the message |
| LockRuns.Serve | ddsnap/ddsnapd.c:3545-3716 | every message takes the server from one moment to the next by a step that fits it (`LockRuns.Step`): requests that take effect are those asked for, a reader gets its snapshot's data or a hold, holds change by reads and releases only, and answers are what was decided for the query; so over the run ids count the queries, a write waits only while one of its own chunks is read, and a snapshot that no message addresses stays the same; stops only before the excluded messages |
| LockRuns.ReadStable | ddsnap/ddsnapd.c:3659-3716 | at every moment of every run at which a client that was told to read the origin has held the chunk since, the origin's chunk is what the snapshot was when the client asked |
| LockRuns.HeldUntilReleased | ddsnap/ddsnapd.c:2947-2966 | it holds the chunk at every later moment before it says that it has read it |
| LockRuns.AnsweredFree | ddsnap/ddsnapd.c:2988-3003 | at the moment of a positive answer no client reads any of the write's chunks, and the write is its client's to do |
| LockRuns.WriteAsAsked | ddsnap/ddsnapd.c:3561-3605 | every write to the origin in a run had a positive answer before it and writes exactly the chunks of the one query that it goes back to |
| LockRuns.DoneOnce | ddsnap/ddsnapd.c:3592-3605 | no granted write takes effect twice |
| LockRuns.StillGranted | ddsnap/ddsnapd.c:3592-3605 | a granted write stays so, with its chunks, until its client does it, so that doing it takes effect |
| LockRuns.QueryAnswered | ddsnap/ddsnapd.c:3561-3605 | at every later moment a query has exactly one answer, or waits while some client reads one of its chunks |
| LockRuns.Untouched | ddsnap/ddsnapd.c:3561-3636 | between any two moments a snapshot that no request addresses stays the same, whatever is written to the origin and to others |
| LockRuns.NothingRefused | ddsnap/ddsnapd.c:2523-2580 | while the store at the start has room for all the chunks asked for so far, every query is granted and another request takes effect just if it makes sense |
| LockRuns.GrantedWithoutCopy | ddsnap/ddsnapd.c:2660-2693 | for every origin, store with room, chunk and client, a run in which a write is granted while a snapshot still resolves its chunk to the origin |
| Changelist.Traversal.Descend | ddsnap/ddsnapd.c:1533-1553 | going down to the next block over leaves loses and repeats nothing |
| Changelist.Traversal.Climb | ddsnap/ddsnapd.c:1573-1584 | neither does leaving finished blocks, and the walk ends only when nothing is left |
| Changelist.ChangedChunks | ddsnap/ddsnapd.c:1513-1586 | the walk visits every leaf once, at any depth, and the list is that of the whole contents in order |
| Changelist.Traversal.EntryChanged | ddsnap/ddsnapd.c:2219-2231 | a chunk of a leaf is listed just if some version is shared by exactly one of the two snapshots and the chunk is within the snapshot's size |
| Changelist.DiffersMeans | ddsnap/ddsnapd.c:2219-2231 | with proper masks that is so just if the two snapshots resolve the chunk to different places |
| Changelist.ListExact | ddsnap/ddsnapd.c:3989-3996 | a chunk within range is listed, once and in ascending order, just if the two snapshots find it in different places; chunks not listed read the same whatever the devices hold |
| Allocator.Allocator.Search | ddsnap/ddsnapd.c:1378-1453 | finds the first chunk, from the start of the byte that the range begins in, that is neither set nor deferred, or says that the range has none, passing over full bytes |
| Allocator.Allocator.Take | ddsnap/ddsnapd.c:1422-1441 | a deferring allocator with room for another range puts the chunk into the open range if that is empty or begins just before it, and otherwise sets its bit; either way exactly that chunk is gone from those to be had |
| Allocator.Allocator.Alloc | ddsnap/ddsnapd.c:2111-2123 | returns the first chunk to be had from the byte of the last one on, or else the first of all, or -1 just if there was none; the free count stays zero bits less deferred |
| Allocator.Allocator.Free | ddsnap/ddsnapd.c:1293-1316 | a set chunk becomes available and is counted; one that is not set is left alone |
| Allocator.Allocator.IsDeferred | ddsnap/ddsnapd.c:1341-1354 | decides membership in the open and closed ranges |
| Allocator.Allocator.Commit | ddsnap/ddsnapd.c:655-659 | closing the open range changes nothing that is to be had |
| Allocator.Allocator.Flush | ddsnap/ddsnapd.c:567-572 | putting the closed ranges into the bitmap changes neither what is to be had nor the free count |
| JournalScan.Written | ddsnap/ddsnapd.c:372-380 | any block written at the head keeps the commit blocks of the ring in order of age |
| JournalScan.OneGap | ddsnap/ddsnapd.c:781-793 | the sequence fails to go on by one after the newest commit block and nowhere else |
| JournalScan.Replay | ddsnap/ddsnapd.c:756-794 | for every ring with a commit block: the scan fails just if the sequence fails to go on by one after more than one commit block, and otherwise finds the one after which it does not; there always is one |
| JournalScan.FindsLast | ddsnap/ddsnapd.c:756-794 | in a ring of commit blocks in order, wherever it was cut off, what the scan finds is the last completed commit |
| JournalScan.Journal.WriteData | ddsnap/ddsnapd.c:616-630 | a cut after any data block leaves the ring recoverable, as long as a transaction has fewer data blocks than the ring has slots |
| JournalScan.Journal.CommitTransaction | ddsnap/ddsnapd.c:598-641 | a transaction of any size that fits puts its data into the slots after the last commit block and the new commit block after them, with the next sequence number, and writes nothing else; with nothing to commit nothing is written |
| JournalScan.DataKept | ddsnap/ddsnapd.c:616-636 | the commit block goes to none of the slots of its data |
| JournalScan.Journal.Restart | ddsnap/ddsnapd.c:842-844 | the restored position and sequence number are those after the last completed commit, and the run goes on from there |
| JournalScan.FreshRanked | ddsnap/ddsnapd.c:3328-3344 | a journal as initialised is in order |
| BufferCache.Cache.Find | ddsnap/buffer.c:328-337 | a chain search finds the sector's buffer just if it is in use |
| BufferCache.Cache.Evict | ddsnap/buffer.c:273-282 | the buffers evicted are the first idle saved ones in the order of use, up to the limit, and the order of the others stays; buffers that are busy, dirty or journaled are untouched; if nothing is freed, all are |
| BufferCache.Cache.NewBuffer | ddsnap/buffer.c:253-310 | gives a buffer not in use, within the limit, or fails just when every buffer is busy or unsaved |
| BufferCache.Cache.Getblk | ddsnap/buffer.c:326-344 | the one buffer of the sector, in its own chain and last in the order of use, after an eviction only if no buffer is free and the pool is full; nothing busy or unsaved is lost |
| BufferCache.Cache.Bread | ddsnap/buffer.c:346-366 | the buffer holds the data last stored in the sector, whether cached or on disk, and no other busy or unsaved buffer changes |
| BufferCache.Cache.SetDirty | ddsnap/buffer.c:134-146 | the data becomes the sector's, and the lists and counters match the state |
| BufferCache.Cache.AddJournaled | ddsnap/buffer.c:117-126 | the buffer changes lists and the sector's data does not |
| BufferCache.Cache.SetEmpty | ddsnap/buffer.c:148-163 | what the buffer held is given up: the sector has again what the disk has |
| BufferCache.Cache.WriteBuffer | ddsnap/buffer.c:180-193 | disk and sector's data agree, and the buffer leaves both lists |
| BufferCache.Cache.Brelse | ddsnap/buffer.c:165-171 | only the count changes |
| Varint.RoundTrip | ddsnap/xdelta/xdelta3.c:1977-2026 | reading what was written gives the number back and leaves the rest, for every 32-bit number |
| Varint.EncodeShortest | ddsnap/xdelta/xdelta3.c:1977-2026 | no other bytes that read as the same number are shorter |
| Varint.ReadValue | ddsnap/xdelta/xdelta3.c:1977-2001 | reading gives the sum of the seven-bit digits, each times the power of 128 of its place |
| Varint.Emit | ddsnap/xdelta/xdelta3.c:2003-2026 | the loop from the last digit back writes that encoding |
| Varint.Scan | ddsnap/xdelta/xdelta3.c:1977-2001 | the loop reads the same number as the definition, and fails on the same inputs: end of input and overflow |
| CodeTable.Build | ddsnap/xdelta/xdelta3.c:1001-1060 | the nested loops lay out the default table of RFC 3284 section 5.6 at every one of the 256 opcodes |
| CodeTable.MeaningRest | ddsnap/xdelta/xdelta3.c:1001-1060 | the opcodes for RUN, for ADD alone and for COPY with ADD, in numbers |
| CodeTable.SingleCodeMeans | ddsnap/xdelta/xdelta3.c:1175-1238 | the opcode chosen for an instruction alone means that instruction, with its size or with the size left to be sent |
| CodeTable.SingleCodeComplete | ddsnap/xdelta/xdelta3.c:1175-1238 | if any opcode of the table means the instruction alone with its size, it is the one chosen |
| CodeTable.DoubleCodeMeans | ddsnap/xdelta/xdelta3.c:1175-1238 | a double opcode chosen means exactly the two instructions |
| CodeTable.DoubleCodeComplete | ddsnap/xdelta/xdelta3.c:1175-1238 | if any opcode of the table means the two instructions, one is chosen |
| AddressCache.Caches.Encode | ddsnap/xdelta/xdelta3.c:2181-2240 | the bytes decode to the address under the chosen mode, no mode has a shorter encoding, and the caches are updated as the decoder's will be; the mode is the first whose number fits one byte, or else that of a remembered address, or else the first with the least number |
| AddressCache.Caches.Decode | ddsnap/xdelta/xdelta3.c:2244-2283 | decodes as defined, with the same failures, and updates the caches |
| AddressCache.NearIs | ddsnap/xdelta/xdelta3.c:2163-2178 | after any addresses each of the last four is in the slot of its turn |
| AddressCache.SameIs | ddsnap/xdelta/xdelta3.c:2163-2178 | the last address with a remainder by 768 is the one remembered for it |
| AddressCache.DirectMeans | ddsnap/xdelta/xdelta3.c:2244-2283 | mode 0 means the number itself and mode 1 so far back from the current position |
| AddressCache.NearMeans | ddsnap/xdelta/xdelta3.c:2244-2283 | modes 2 to 5 mean so far on from one of the last four addresses, by the turn it was used in |
| AddressCache.SameMeans | ddsnap/xdelta/xdelta3.c:2244-2283 | modes 6 to 8 with one byte mean the last address with that remainder |
| AddressCache.LeastOffsetIsBest | ddsnap/xdelta/xdelta3.c:2181-2240 | the least offset over all modes gives the shortest encoding |
| Matches.SplitOverlap | ddsnap/xdelta/xdelta3.c:3143-3205 | trims two overlapping matches so that they meet, at an even share of at most 18 where both reach that far, both still long enough, nothing covered is lost and no unsigned subtraction leaves its range |
| Matches.Settle | ddsnap/xdelta/xdelta3.c:3089-3205 | a match is dropped only if it overlaps another almost entirely that is no shorter, or lies between two others that nearly meet; other overlapping matches are cut to meet at the point the code chooses |
| Matches.Flush | ddsnap/xdelta/xdelta3.c:3071-3208 | terminates with matches in order that do not overlap, each at least 4 long and cut from one of the queue, by such steps only |
| Matches.WithinCorrect | ddsnap/xdelta/xdelta3.c:3143-3205 | whatever is cut from a valid match is a valid match |
| VcdiffDecoder.Decoder.Parse | ddsnap/xdelta/xdelta3.c:4224-4312 | reads one half instruction as defined, with the same failures |
| VcdiffDecoder.Decoder.Perform | ddsnap/xdelta/xdelta3.c:4349-4508 | writes what the instruction means, byte by byte through self-overlapping copies |
| VcdiffDecoder.ExtendRepeats | ddsnap/xdelta/xdelta3.c:4349-4508 | a copy that overlaps what it writes reproduces a target that repeats itself |
| VcdiffDecoder.RunFrame | ddsnap/xdelta/xdelta3.c:4615-4663 | decoding a prefix of the sections does not depend on what follows |
| VcdiffDecoder.RunCaches | ddsnap/xdelta/xdelta3.c:4224-4312 | after decoding any sections the caches are those of the addresses that the COPYs read from, in order |
| VcdiffDecoder.OutputAt | ddsnap/xdelta/xdelta3.c:4349-4508 | byte by byte what an instruction writes: the data for ADD, its first byte for RUN, the source for COPY, and for a COPY within the target the byte so far back in the result itself |
| VcdiffDecoder.NothingOver | ddsnap/xdelta/xdelta3.c:4615-4663 | a window has the announced length, and bytes left over in the address or data section are refused |
| VcdiffDecoder.TraceFrame | ddsnap/xdelta/xdelta3.c:4615-4663 | more in the sections adds instructions after those performed so far |
| VcdiffDecoder.DecodeSections | ddsnap/xdelta/xdelta3.c:4615-4663 | the decoder's loop equals the definition, including failure unless all three sections are used up |
| VcdiffEncoder.SingleExtends | ddsnap/xdelta/xdelta3.c:3323-3346 | emitting an instruction alone extends what the sections decode to by that instruction |
| VcdiffEncoder.DoubleExtends | ddsnap/xdelta/xdelta3.c:3349-3371 | so does emitting two under one opcode |
| VcdiffEncoder.NoDouble | ddsnap/xdelta/xdelta3.c:2887-2925 | if the code chooses no double opcode, no opcode of the table means the pair |
| VcdiffEncoder.Encoder.Finish | ddsnap/xdelta/xdelta3.c:2880-3010 | with one instruction held back, the sections always decode to the target so far short of it, by the matches sent so far; an instruction is sent alone only if the table has no opcode for it and the next |
| VcdiffEncoder.Encoder.FillGap | ddsnap/xdelta/xdelta3.c:3015-3030 | gaps are covered by ADDs exactly |
| VcdiffEncoder.Encoder.Finalize | ddsnap/xdelta/xdelta3.c:3049-3065 | at the end the sections decode to the whole target |
| VcdiffEncoder.EncodeWindow | ddsnap/xdelta/xdelta3.c:2880-3065 | for any source, target and valid matches the three sections decode to exactly the target and are used up; the instructions the decoder performs are those matches, with their addresses, and one ADD for each gap; no two neighbours are sent apart that one opcode could have sent together |
| VcdiffEncoder.RoundTrip | ddsnap/xdelta/xdelta3.c:3071-3208 | resolve overlaps, encode and decode: the target is back |
| Adler32.Checksum | ddsnap/xdelta/xdelta3.c:1780-1813 | with the modulo only once in 5552 bytes the result is that of section 8.2 of RFC 1950 byte by byte, for every length, and no sum leaves 32 bits |
| Adler32.Closed | ddsnap/xdelta/xdelta3.c:1780-1813 | the checksum is the sum of the bytes, and the sum of the bytes weighted by their places from the end, modulo 65521 |
| Adler32.Fits | ddsnap/xdelta/xdelta3.c:1771-1772 | the bound on the block length: the sums of 5552 bytes fit 32 bits from any 16-bit start |
| DirtyStream.Recovered | ddraid/ddraid.c:660-694 | if the last words that say dirty are those of the regions held, replaying gives exactly those regions |
| DirtyStream.TellsForget | ddraid/ddraid.c:341-362 | an entry may be dropped if it is not the one its region depends on |
| DirtyLog.TracksKeep | ddraid/ddraid.c:347-362 | logging a live entry again before passing over it keeps the log telling |
| DirtyLog.TracksNext | ddraid/ddraid.c:315-329 | so does retiring a block that is used up |
| DirtyLog.Load | ddraid/ddraid.c:660-694 | reading around the ring from the last block's oldest entry finds the regions held when it was written |
| DirtyScan.FindNewest | ddraid/ddraid.c:575-635 | for every ring of two blocks or more: the newest block and the torn one are found just if the ring is what writing in order leaves, with at most the block after the newest torn, and in every other ring the scan fails |
| DirtyScan.OneNewest | ddraid/ddraid.c:575-635 | only one slot of a ring can be the newest |
| DirtyServer.BlankSound | ddraid/ddraid.c:1149-1155 | a log as created is such a ring and tells that nothing is held |
| DirtyServer.Server.Get | ddraid/ddraid.c:493-517 | one holder more, and an entry just if there was none |
| DirtyServer.Server.Put | ddraid/ddraid.c:519-545 | one holder less, and an entry just if it was the last; a redundant release does nothing |
| DirtyServer.Server.RetireOldEntries | ddraid/ddraid.c:331-364 | terminates, changes nobody's count, and the log still tells exactly the regions held; it stops only when every older block is retired or the newest is full, and logs no more than the regions whose entries were in older blocks |
| DirtyServer.Server.Advance | ddraid/ddraid.c:394-447 | the block written leads to exactly the regions held, and only then are the waiting clients answered |
| DirtyServer.Server.TryToAdvance | ddraid/ddraid.c:449-463 | writes the block and answers the waiting clients, or is stuck just if the next block is the oldest of use, so that a torn write never hits a block of use |
| DirtyServer.Server.Commit | ddraid/ddraid.c:471-477 | unless the server gets stuck, a crash would find exactly the regions held now, and so every region answered for that is still held; it can be stuck only if its entries and the regions held would overflow a block |
| DirtyServer.Server.Request | ddraid/ddraid.c:830-847 | the same for answers that wait; for an answer given at once, a crash would find the region if and only if its entry is in an earlier block than the one being filled or the first word on it in that block says clean |
| DirtyServer.AnsweredTooSoon | ddraid/ddraid.c:500-503 | a run in which a region is answered for at once and a crash would find it clean |
| DirtyServer.Server.Serve | ddraid/ddraid.c:830-858 | in every run until the server is stuck, the regions held are those with more requests than releases; those a crash would find, after any message, are the ones so held after some number of messages that includes everything up to the last idle moment, and they include every region that was answered for after it was logged, or at once when the log had it, and held since; answers at once are those for regions held; the other requests are answered in order, none lost and none twice, and all of them when the server has been idle; if at every idle moment the messages since the last one and the regions held are together fewer than the entries of a block, the server is never stuck |
| DirtyServer.CalmNext | ddraid/ddraid.c:471-477 | under that condition no message of the run gets the server stuck |
| DirtyServer.Server.Crash | ddraid/ddraid.c:575-694 | at any moment, also between retiring entries and writing the block, with the write under way torn or not, scanning and replaying finds exactly the regions held when the last block was written |
| Parity.XorReplaced | ddraid/kernel/dm-ddraid.c:327-375 | replacing one fragment's word changes the parity by the difference |
| Parity.LostWord | ddraid/kernel/dm-ddraid.c:723-727 | with the parity in the lost word's place the parity of the column is the lost word |
| Parity.ComputeParity | ddraid/kernel/dm-ddraid.c:366-375 | every word of the destination is the parity of the original column, even if the destination is one of the fragments, and nothing else changes |
| Parity.ParityOf4096 | ddraid/kernel/dm-ddraid.c:334-365 | the cases written out for 4096-byte blocks do the same as the general loop |
| Parity.VerifyParity | ddraid/kernel/dm-ddraid.c:377-394 | accepts just if every word is right |
| Parity.Reconstruct | ddraid/kernel/dm-ddraid.c:723-727 | copying the parity over any lost fragment and computing the parity over it restores the data exactly |

## Left out

- Separate metadata and snapshot stores, where address 0 also means that there is no exception.
- Deleting snapshots from trees of more than two index levels, where the walk may lose chunks.
- Automatic deletion of a victim snapshot when the store or the snapshot list is full, and squashed snapshots: the model reports failure instead.
- Crash atomicity of snapshot deletion and the journal's copy of data blocks to their places; of the journal only the scan and the restored counters are modelled, and a data block is assumed never to look like a commit block.
- Linking between snapshot server, allocator, buffer cache and journal: each is modelled by itself, and the server takes any free chunks from a set.
- Hash chains of read locks and of regions, which are modelled as maps; releases are by holders only, and disconnecting clients are not modelled.
- Splitting replies over several ranges, resizing stores, status requests, sockets, signals and option parsing.
- Change lists against the origin.
- Index blocks are sequences of entries written back as a whole; the bytes of an index block are not modelled.
- Bitmap blocks: the allocator's bitmap is one array of bits, searched byte by byte.
- Wrap-around of 32-bit sequence numbers in the journal and the dirty log.
- The dirty log after the server is stuck, deferred cleans, unsynced regions after a recovery, and a second recovery after a torn block was rewritten.
- xdelta string matching, source windows of more than one block, queues that are not flushed to the end, secondary compression, application headers and window headers; the checksum is modelled apart from the window.
- Kernel input and output around the parity computation.
- Snapshots.Server.Run: stops before a deletion from a tree of more than two index levels.
- Snapshots.Server.DeleteSnapshot: only for trees of at most two index levels.
- Walker.DeleteTree: only for trees of at most two index levels, and from chunk 0, where snapshot deletion always starts.
- Snapshots.Server.MakeUnique: deletes no snapshot to make room, and above eight levels asks for more free chunks than the code.
- Snapshots.Server.CreateSnapshot: reports failure at 64 snapshots and does not pick one to delete.
- Snapshots.Server.WriteOrigin: with copies to make, success is stated by two bounds on the free chunks; between them it depends on how many blocks split on the way.
- Snapshots.Server.WriteSnapshot: the same bounds.
- SnapLocks.LockServer.OtherRequest: a deletion only from trees of at most two index levels.
- SnapLocks.LockServer.ReleaseChunk: only for clients that hold the chunk; for others the code drops the rest of the chain (ddsnap/ddsnapd.c:2977-2980, 3028-3029).
- LockRuns.Serve: stops before a release by a client that does not hold the chunk, before a snapshot is created while some write may still come, and before a deletion from a tree of more than two index levels.
- DirtyServer.Server.Serve: ends when the server is stuck.
- DirtyServer.Server.Put: not while the server is stuck, when the code puts off the release.
- DirtyServer.Server.Commit: not while the server is stuck.
- JournalScan.Replay: commit blocks with a wrong checksum are not represented; a block write is whole or not at all.
- JournalScan.Journal.CommitTransaction: the deferred ranges recorded in commit blocks are part of the allocator's model, not of this one.
- BufferCache.Cache.SetDirty: the client's edit of the data and the marking are one step.
- BufferCache.Cache.AddJournaled: not for a buffer that is on the journaled list already, which the code would put there twice, or one without contents.
- BufferCache.Cache.WriteBuffer: a buffer is written to its own sector; writes of its data to journal sectors pass the cache by.
- VcdiffDecoder.Decoder.Parse: takes sums of sizes in unbounded integers; the code's may wrap on malformed input.
- Volume.Isolated: speaks about the requests as the server grants them; a client's own writes to the devices are part of the request.
