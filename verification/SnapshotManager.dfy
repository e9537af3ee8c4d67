/** The snapshot manager (`snapshots/manager.go`): one operation at a time, and a restore that is
    fed chunk by chunk.

    Every step below is one section of code run under the manager's mutex.  The goroutine that
    performs a restore is the environment: what it reports on its result channel is an input of
    the step that reads it.  Channels are numbered; `closes` records every `close` call and
    `sent` what was sent on each channel. */
module SnapshotManager {
  import opened Bytes
  import opened Gas
  import opened SnapshotKeys
  import opened Chunks
  import opened SnapshotStoreObject

  datatype Op = OpNone | OpSnapshot | OpPrune | OpRestore

  /** What the restoring goroutine reports. */
  datatype Done = Done(complete: bool, failed: bool)

  datatype Manager = Manager(
    op: Op,
    chRestore: Option<nat>,
    hashes: seq<bytes>,
    index: nat,
    channels: nat,                        // channels made so far
    closes: seq<nat>,
    sent: map<nat, seq<bytes>>
  )

  datatype Reply = Accepted(complete: bool) | Refused | BadHash

  const CURRENT_FORMAT: uint32 := 1

  function NewManager(): Manager {
    Manager(OpNone, None, [], 0, 0, [], map[])
  }

  function Begin(m: Manager, op: Op): (Manager, bool) {
    if op.OpNone? || !m.op.OpNone? then (m, false) else (m.(op := op), true)
  }

  /** `endLocked`. */
  function End(m: Manager): Manager {
    m.(op := OpNone, chRestore := None, hashes := [], index := 0,
       closes := if m.chRestore.Some? then m.closes + [m.chRestore.value] else m.closes)
  }

  /** `Restore`: checks on the offered snapshot, then the operation and a new channel. */
  function Restore(m: Manager, s: Snapshot): (Manager, bool) {
    if s.chunks == 0 || |s.chunkHashes| != s.chunks then (m, false)
    else if s.format != CURRENT_FORMAT || s.height == 0 || s.height >= 0x8000_0000_0000_0000 then (m, false)
    else
      var (m', ok) := Begin(m, OpRestore);
      if !ok then (m, false)
      else (m'.(chRestore := Some(m.channels), hashes := s.chunkHashes, index := 0,
                channels := m.channels + 1, sent := m.sent[m.channels := []]), true)
  }

  /** `RestoreChunk`.  `early` is what the goroutine has reported before the chunk is handed
      over, `final` what it reports when waited for after the last chunk. */
  function RestoreChunk(sha: Hash, m: Manager, chunk: bytes, early: Option<Done>, final: Done): (Manager, Reply) {
    if !m.op.OpRestore? then (m, Refused)
    else if m.index >= |m.hashes| then (m, Refused)
    else if early.Some? then (End(m), Refused)
    else if sha(chunk) != m.hashes[m.index] then (m, BadHash)
    else if m.chRestore.None? then (m, Refused)          // send on a nil channel blocks forever
    else
      var ch := m.chRestore.value;
      var m1 := m.(sent := m.sent[ch := (if ch in m.sent then m.sent[ch] else []) + [chunk]], index := m.index + 1);
      if m1.index >= |m1.hashes| then
        var m2 := End(m1.(closes := m1.closes + [ch], chRestore := None));
        (m2, if final.failed || !final.complete then Refused else Accepted(true))
      else (m1, Accepted(false))
  }

  // ---- All interleavings ----

  /** The locked sections, by whichever thread.  A thread that began a snapshot or prune ends it
      exactly once; `holder` counts the threads that have begun one and not ended it. */
  datatype Action =
    | BeginOp(op: Op)
    | EndOp
    | OfferSnapshot(snapshot: Snapshot)
    | ApplyChunk(chunk: bytes, early: Option<Done>, final: Done)

  datatype World = World(m: Manager, holders: seq<Op>)

  function Init(): World {
    World(NewManager(), [])
  }

  /** `None`: no thread is in a position to take this step. */
  function Step(sha: Hash, w: World, a: Action): Option<World> {
    match a
    case BeginOp(op) =>
      if op.OpRestore? then None
      else
        var (m, ok) := Begin(w.m, op);
        Some(World(m, if ok then w.holders + [op] else w.holders))
    case EndOp => if w.holders == [] then None else Some(World(End(w.m), w.holders[1..]))
    case OfferSnapshot(s) => Some(w.(m := Restore(w.m, s).0))
    case ApplyChunk(c, early, final) => Some(w.(m := RestoreChunk(sha, w.m, c, early, final).0))
  }

  function Run(sha: Hash, w: World, acts: seq<Action>): Option<World>
    decreases |acts|
  {
    if acts == [] then Some(w)
    else match Step(sha, w, acts[0])
      case None => None
      case Some(w') => Run(sha, w', acts[1..])
  }

  predicate Distinct(s: seq<nat>) {
    forall i, j :: 0 <= i < j < |s| ==> s[i] != s[j]
  }

  /** What every reachable state satisfies. */
  predicate Inv(sha: Hash, w: World) {
    var m := w.m;
    // at most one operation is active, and a snapshot or prune is active exactly while held
    && |w.holders| <= 1
    && (w.holders != [] ==> m.op == w.holders[0] && (m.op.OpSnapshot? || m.op.OpPrune?))
    && (w.holders == [] ==> m.op.OpNone? || m.op.OpRestore?)
    // the restore fields are set exactly during a restore, and a chunk is always still expected
    && (m.op.OpRestore? <==> m.chRestore.Some?)
    && (m.op.OpRestore? ==> m.index < |m.hashes| && m.chRestore.value in m.sent)
    && (m.op.OpRestore? ==> |m.sent[m.chRestore.value]| == m.index)
    && (!m.op.OpRestore? ==> m.hashes == [] && m.index == 0)
    // the chunks handed over so far are the expected ones, in order
    && (m.op.OpRestore? ==> forall i :: 0 <= i < m.index ==> sha(m.sent[m.chRestore.value][i]) == m.hashes[i])
    // no channel is closed twice, nor while in use
    && Distinct(m.closes)
    && (forall i :: 0 <= i < |m.closes| ==> m.closes[i] < m.channels)
    && (m.chRestore.Some? ==> m.chRestore.value < m.channels && m.chRestore.value !in m.closes)
  }

  lemma DistinctAppend(s: seq<nat>, x: nat)
    requires Distinct(s) && x !in s
    ensures Distinct(s + [x])
  {
  }

  lemma EndKeepsInv(sha: Hash, w: World)
    requires Inv(sha, w)
    ensures Inv(sha, World(End(w.m), []))
  {
    if w.m.chRestore.Some? {
      DistinctAppend(w.m.closes, w.m.chRestore.value);
    }
  }

  lemma {:induction false} StepKeepsInv(sha: Hash, w: World, a: Action)
    requires Inv(sha, w)
    ensures Step(sha, w, a).Some? ==> Inv(sha, Step(sha, w, a).value)
  {
    match a
    case BeginOp(op) =>
    case EndOp =>
      if w.holders != [] {
        EndKeepsInv(sha, w);
        assert w.holders[1..] == [];
      }
    case OfferSnapshot(s) =>
    case ApplyChunk(c, early, final) =>
      if w.m.op.OpRestore? {
        assert w.holders == [];
        EndKeepsInv(sha, w);
        DistinctAppend(w.m.closes, w.m.chRestore.value);
      }
  }

  /** In every state reachable by any interleaving of any callers: at most one operation, restore
      fields exactly during a restore, chunks in order without gaps or repeats, every channel
      closed at most once, and never a send on or a close of a closed channel. */
  lemma {:induction false} ReachableInv(sha: Hash, w: World, acts: seq<Action>)
    requires Inv(sha, w) && Run(sha, w, acts).Some?
    ensures Inv(sha, Run(sha, w, acts).value)
    decreases |acts|
  {
    if acts != [] {
      StepKeepsInv(sha, w, acts[0]);
      ReachableInv(sha, Step(sha, w, acts[0]).value, acts[1..]);
    }
  }

  lemma {:induction false} AllReachableInv(sha: Hash, acts: seq<Action>)
    requires Run(sha, Init(), acts).Some?
    ensures Inv(sha, Run(sha, Init(), acts).value)
  {
    ReachableInv(sha, Init(), acts);
  }

  /** The guards of `RestoreChunk` in reachable states: the "unexpected chunk" branch cannot be
      taken, the channel is there to send on, and a mismatching hash changes nothing. */
  lemma {:induction false} RestoreChunkGuards(sha: Hash, acts: seq<Action>, chunk: bytes, early: Option<Done>,
                                              final: Done)
    requires Run(sha, Init(), acts).Some?
    ensures var m := Run(sha, Init(), acts).value.m;
            var (m', reply) := RestoreChunk(sha, m, chunk, early, final);
            && (m.op.OpRestore? ==> m.index < |m.hashes| && m.chRestore.Some? && m.chRestore.value !in m.closes)
            && (reply.BadHash? ==> m' == m && m.op.OpRestore?)
            && (m.op.OpRestore? && early.None? && sha(chunk) != m.hashes[m.index] ==> reply.BadHash?)
            && (!m.op.OpRestore? ==> m' == m && reply.Refused?)
  {
    AllReachableInv(sha, acts);
  }

  // ---- A whole restore ----

  /** Feeding chunks (right or wrong, with any early reports) to a restore; `None` when some call
      refused and the restore is over without success. */
  datatype Feed = Feed(chunk: bytes, early: Option<Done>, final: Done)

  /** Chunks are offered until one call completes the restore; the rest is not looked at. */
  function FeedAll(sha: Hash, m: Manager, feeds: seq<Feed>): (Manager, bool)
    decreases |feeds|
  {
    if feeds == [] then (m, false)
    else
      var (m', reply) := RestoreChunk(sha, m, feeds[0].chunk, feeds[0].early, feeds[0].final);
      if reply == Accepted(true) then (m', true) else FeedAll(sha, m', feeds[1..])
  }

  /** None of the offered byte strings has the hash of a chunk without being it. */
  predicate CollisionFree(sha: Hash, chunks: seq<bytes>, offered: set<bytes>) {
    forall i, x :: 0 <= i < |chunks| && x in offered && sha(x) == sha(chunks[i]) ==> x == chunks[i]
  }

  function Offered(feeds: seq<Feed>): set<bytes> {
    set f | f in feeds :: f.chunk
  }

  /** A restore of `chunks` is under way on channel `ch` and has been handed its first `index`. */
  predicate Restoring(sha: Hash, m: Manager, ch: nat, chunks: seq<bytes>) {
    && m.op.OpRestore? && m.chRestore == Some(ch) && m.hashes == ChunkHashes(sha, chunks)
    && m.index < |chunks| && ch in m.sent && m.sent[ch] == chunks[..m.index]
  }

  lemma RestoreStarts(sha: Hash, m: Manager, height: uint64, chunks: seq<bytes>)
    requires m.op.OpNone? && chunks != [] && 0 < height < 0x8000_0000_0000_0000
    ensures var (m', ok) := Restore(m, Metadata(sha, height, CURRENT_FORMAT, chunks));
            ok && Restoring(sha, m', m.channels, chunks)
  {
  }

  /** One call in the middle of a restore: an accepted chunk is the expected one. */
  lemma OneFeed(sha: Hash, m: Manager, ch: nat, chunks: seq<bytes>, f: Feed)
    requires Restoring(sha, m, ch, chunks) && CollisionFree(sha, chunks, {f.chunk})
    ensures var (m', reply) := RestoreChunk(sha, m, f.chunk, f.early, f.final);
            && (reply == Accepted(true) ==> ch in m'.sent && m'.sent[ch] == chunks)
            && (reply != Accepted(true) ==> Restoring(sha, m', ch, chunks) || (m'.op.OpNone? && m'.chRestore.None?))
  {
    var (m', reply) := RestoreChunk(sha, m, f.chunk, f.early, f.final);
    if f.early.None? && sha(f.chunk) == m.hashes[m.index] {
      assert f.chunk == chunks[m.index];
      assert chunks[..m.index + 1] == chunks[..m.index] + [f.chunk];
      if m.index + 1 == |chunks| {
        assert chunks[..|chunks|] == chunks;
      }
    }
  }

  /** The expected chunk, offered to a healthy goroutine, is taken; the last one completes. */
  lemma HealthyFeed(sha: Hash, m: Manager, ch: nat, chunks: seq<bytes>)
    requires Restoring(sha, m, ch, chunks)
    ensures var (m', reply) := RestoreChunk(sha, m, chunks[m.index], None, Done(true, false));
            && reply == Accepted(m.index + 1 == |chunks|)
            && (m.index + 1 < |chunks| ==> Restoring(sha, m', ch, chunks) && m'.index == m.index + 1)
  {
    assert chunks[..m.index + 1] == chunks[..m.index] + [chunks[m.index]];
  }

  lemma {:induction false} IdleFeeds(sha: Hash, m: Manager, feeds: seq<Feed>)
    requires !m.op.OpRestore?
    ensures FeedAll(sha, m, feeds) == (m, false)
    decreases |feeds|
  {
    if feeds != [] {
      IdleFeeds(sha, m, feeds[1..]);
    }
  }

  /** Safety of a restore: whatever is offered, in whatever order and with whatever reports from
      the goroutine, if some call completes the restore then exactly the chunks of the snapshot
      were handed over, each once and in order. */
  lemma {:induction false} RestoreIsExact(sha: Hash, m: Manager, ch: nat, chunks: seq<bytes>, feeds: seq<Feed>)
    requires Restoring(sha, m, ch, chunks) && CollisionFree(sha, chunks, Offered(feeds))
    ensures var (m', done) := FeedAll(sha, m, feeds);
            done ==> ch in m'.sent && m'.sent[ch] == chunks
    decreases |feeds|
  {
    if feeds != [] {
      assert feeds[0].chunk in Offered(feeds) && Offered(feeds[1..]) <= Offered(feeds);
      OneFeed(sha, m, ch, chunks, feeds[0]);
      var (m', reply) := RestoreChunk(sha, m, feeds[0].chunk, feeds[0].early, feeds[0].final);
      if reply != Accepted(true) {
        if m'.op.OpRestore? {
          RestoreIsExact(sha, m', ch, chunks, feeds[1..]);
        } else {
          IdleFeeds(sha, m', feeds[1..]);
        }
      }
    }
  }

  function InOrder(chunks: seq<bytes>): (r: seq<Feed>)
    ensures |r| == |chunks| && forall i :: 0 <= i < |r| ==> r[i] == Feed(chunks[i], None, Done(true, false))
  {
    seq(|chunks|, i requires 0 <= i < |chunks| => Feed(chunks[i], None, Done(true, false)))
  }

  /** Progress of a restore: offering the chunks in order to a healthy goroutine completes it. */
  lemma {:induction false} RestoreCompletes(sha: Hash, m: Manager, ch: nat, chunks: seq<bytes>)
    requires Restoring(sha, m, ch, chunks)
    ensures FeedAll(sha, m, InOrder(chunks)[m.index..]).1
    decreases |chunks| - m.index
  {
    var feeds := InOrder(chunks)[m.index..];
    var (m', reply) := RestoreChunk(sha, m, feeds[0].chunk, feeds[0].early, feeds[0].final);
    HealthyFeed(sha, m, ch, chunks);
    if m.index + 1 < |chunks| {
      assert feeds[1..] == InOrder(chunks)[m'.index..];
      RestoreCompletes(sha, m', ch, chunks);
    }
  }

  /** From the bytes of a snapshot to the restoring goroutine: cut at any chunk size, saved,
      offered again as metadata, fed by any sequence of calls that ends in success, and read back
      through the chunk reader, the stream is the original one. */
  lemma {:induction false} SnapshotRoundTrip(sha: Hash, m: Manager, height: uint64, stream: bytes, chunkSize: nat,
                                             feeds: seq<Feed>)
    requires m.op.OpNone? && stream != [] && 0 < height < 0x8000_0000_0000_0000
    requires CollisionFree(sha, Split(stream, chunkSize), Offered(feeds))
    ensures var snapshot := Metadata(sha, height, CURRENT_FORMAT, Split(stream, chunkSize));
            var (m1, started) := Restore(m, snapshot);
            var (m2, done) := FeedAll(sha, m1, feeds);
            && started
            && (done ==> m.channels in m2.sent && Delivered(AllInMemory(m2.sent[m.channels])) == stream)
            && FeedAll(sha, m1, InOrder(Split(stream, chunkSize))).1
  {
    var chunks := Split(stream, chunkSize);
    SplitShape(stream, chunkSize);
    RestoreStarts(sha, m, height, chunks);
    var m1 := Restore(m, Metadata(sha, height, CURRENT_FORMAT, chunks)).0;
    RestoreIsExact(sha, m1, m.channels, chunks, feeds);
    RestoreCompletes(sha, m1, m.channels, chunks);
    assert InOrder(chunks)[0..] == InOrder(chunks);
    InMemoryContents(chunks);
    NothingLostIff(AllInMemory(chunks));
  }

  // ---- The manager object ----

  /** The file of a chunk of a snapshot in the current format. */
  predicate SavedAs(files: map<(int, int, int), bytes>, height: int, i: int, content: bytes) {
    (height, CURRENT_FORMAT, i) in files && files[(height, CURRENT_FORMAT, i)] == content
  }

  class ManagerObject {
    const store: SnapshotStore
    var operation: Op
    var chRestore: Option<nat>
    var restoreChunkHashes: seq<bytes>
    var restoreChunkIndex: nat
    var channels: nat
    var closes: seq<nat>
    var sent: map<nat, seq<bytes>>

    ghost function Abs(): Manager
      reads this
    {
      Manager(operation, chRestore, restoreChunkHashes, restoreChunkIndex, channels, closes, sent)
    }

    constructor (store: SnapshotStore)
      ensures this.store == store && Abs() == NewManager()
    {
      this.store := store;
      operation, chRestore, restoreChunkHashes, restoreChunkIndex := OpNone, None, [], 0;
      channels, closes, sent := 0, [], map[];
    }

    method BeginLocked(op: Op) returns (ok: bool)
      modifies this
      ensures (Abs(), ok) == Begin(old(Abs()), op)
    {
      if op.OpNone? || !operation.OpNone? {
        return false;
      }
      operation := op;
      ok := true;
    }

    method EndLocked()
      modifies this
      ensures Abs() == End(old(Abs()))
    {
      operation := OpNone;
      if chRestore.Some? {
        closes := closes + [chRestore.value];
        chRestore := None;
      }
      restoreChunkHashes := [];
      restoreChunkIndex := 0;
    }

    /** `Create`: a snapshot is only ever added above every stored height the store can see. */
    method Create(height: uint64, chunks: seq<ChunkBody>) returns (r: Result<Snapshot>)
      requires store.Valid()
      requires operation.OpNone? ==> chRestore.None? && restoreChunkHashes == [] && restoreChunkIndex == 0
      modifies this, store
      ensures store.Valid() && Abs() == old(Abs())
      ensures r.Err? ==> store.db == old(store.db)
      ensures r.Ok? <==>
        && old(operation).OpNone?
        && height != 0 && height !in old(store.saving) && EncodeKey(height, CURRENT_FORMAT) !in old(store.db)
        && AllBodies(chunks)
        && forall k :: k in old(store.db) && Visible(old(store.db)[k].height, old(store.db)[k].format) ==>
          old(store.db)[k].height < height
      ensures r.Ok? ==>
        && r.value == Metadata(store.sha, height, CURRENT_FORMAT, BodyBytes(chunks))
        && store.db == old(store.db)[EncodeKey(height, CURRENT_FORMAT) := r.value]
        && (forall i :: 0 <= i < |chunks| ==> SavedAs(store.files, height, i, chunks[i].content))
        && SameElsewhere(old(store.files), store.files, height, CURRENT_FORMAT, |chunks|)
    {
      hide EncodeKey;
      var ok := BeginLocked(OpSnapshot);
      if !ok {
        return Err;
      }
      var latest := store.GetLatest();
      if latest.Some? && latest.value.height >= height {
        EndLocked();
        return Err;
      }
      r := store.Save(height, CURRENT_FORMAT, chunks);
      EndLocked();
    }

    method Prune(retain: uint32) returns (r: Result<nat>)
      requires store.Valid()
      requires operation.OpNone? ==> chRestore.None? && restoreChunkHashes == [] && restoreChunkIndex == 0
      modifies this, store
      ensures store.Valid() && Abs() == old(Abs())
      ensures !old(operation).OpNone? ==> r.Err? && store.db == old(store.db)
      ensures old(operation).OpNone? ==>
        (r.Ok? <==>
           && NoneDoomedSaving(old(store.db), retain, store.saving)
           && forall k :: k in old(store.db) && Doomed(old(store.db)[k], old(store.Heights()), retain) ==>
                CleanHeight(old(store.db)[k].height, old(store.db), retain, old(store.heightDirs),
                  old(store.formatDirs)))
      ensures r.Ok? ==> r.value == |old(store.db)| - |store.db|
      ensures forall k :: k in store.db ==> k in old(store.db) && store.db[k] == old(store.db)[k]
      ensures forall k :: k in old(store.db) && !Doomed(old(store.db)[k], old(store.Heights()), retain) ==>
        k in store.db
      ensures old(operation).OpNone? && NoneDoomedSaving(old(store.db), retain, store.saving) ==>
        forall k :: k in store.db ==> !Doomed(store.db[k], old(store.Heights()), retain)
    {
      hide EncodeKey, Doomed, CleanHeight, NoneDoomedSaving, HeightsOf;
      var ok := BeginLocked(OpPrune);
      if !ok {
        return Err;
      }
      r := store.Prune(retain);
      EndLocked();
    }

    method RestoreCall(snapshot: Snapshot) returns (ok: bool)
      modifies this
      ensures (Abs(), ok) == Restore(old(Abs()), snapshot)
    {
      if snapshot.chunks == 0 {
        return false;
      }
      if |snapshot.chunkHashes| != snapshot.chunks {
        return false;
      }
      if snapshot.format != CURRENT_FORMAT {
        return false;
      }
      if snapshot.height == 0 {
        return false;
      }
      if snapshot.height > 0x7FFF_FFFF_FFFF_FFFF {
        return false;
      }
      ok := BeginLocked(OpRestore);
      if !ok {
        return;
      }
      chRestore := Some(channels);
      sent := sent[channels := []];
      channels := channels + 1;
      restoreChunkHashes := snapshot.chunkHashes;
      restoreChunkIndex := 0;
    }

    /** `RestoreChunk`; the send needs the channel that `Inv` guarantees. */
    method RestoreChunkCall(chunk: bytes, early: Option<Done>, final: Done) returns (reply: Reply)
      requires operation.OpRestore? ==> chRestore.Some? && chRestore.value in sent
      modifies this
      ensures (Abs(), reply) == RestoreChunk(store.sha, old(Abs()), chunk, early, final)
    {
      if !operation.OpRestore? {
        return Refused;
      }
      if restoreChunkIndex >= |restoreChunkHashes| {
        return Refused;
      }
      if early.Some? {
        EndLocked();
        return Refused;
      }
      if store.sha(chunk) != restoreChunkHashes[restoreChunkIndex] {
        return BadHash;
      }
      sent := sent[chRestore.value := sent[chRestore.value] + [chunk]];
      restoreChunkIndex := restoreChunkIndex + 1;
      if restoreChunkIndex >= |restoreChunkHashes| {
        closes := closes + [chRestore.value];
        chRestore := None;
        EndLocked();
        return if final.failed || !final.complete then Refused else Accepted(true);
      }
      reply := Accepted(false);
    }
  }
}
