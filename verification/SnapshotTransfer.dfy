/** A whole state sync between two nodes: one writes, cuts and saves a snapshot, the other is offered
    its metadata and the chunk files, in whatever order, and reads the stream back. */
module SnapshotTransfer {
  import opened Bytes
  import opened Gas
  import opened SnapshotKeys
  import opened Chunks
  import opened SnapshotStoreObject
  import opened SnapshotManager

  /** A call that offers the chunk file with this index, and what the restoring goroutine reports
      before and after it. */
  datatype Offer = Offer(index: nat, early: Option<Done>, final: Done)

  /** All chunks one after the other, to a healthy goroutine. */
  predicate InSequence(offers: seq<Offer>, n: nat) {
    |offers| == n && forall i :: 0 <= i < n ==> offers[i] == Offer(i, None, Done(true, false))
  }

  function AsBodies(chunks: seq<bytes>): (r: seq<ChunkBody>)
    ensures AllBodies(r) && BodyBytes(r) == chunks && |r| == |chunks|
    ensures forall i :: 0 <= i < |chunks| ==> r[i].content == chunks[i]
  {
    seq(|chunks|, i requires 0 <= i < |chunks| => Body(chunks[i]))
  }

  /** Where a restore stands: over and complete, under way, or over without success. */
  ghost predicate Progress(sha: Hash, m: Manager, ch: nat, chunks: seq<bytes>, done: bool) {
    if done then ch in m.sent && m.sent[ch] == chunks
    else Restoring(sha, m, ch, chunks) || (m.op.OpNone? && m.chRestore.None?)
  }

  lemma {:induction false} OneOffer(sha: Hash, m: Manager, ch: nat, chunks: seq<bytes>, offered: set<bytes>, f: Feed)
    requires Progress(sha, m, ch, chunks, false) && CollisionFree(sha, chunks, offered) && f.chunk in offered
    ensures m.op.OpRestore? ==> m.chRestore.Some? && m.chRestore.value in m.sent
    ensures var (m', reply) := RestoreChunk(sha, m, f.chunk, f.early, f.final);
            && Progress(sha, m', ch, chunks, reply == Accepted(true))
            && (Restoring(sha, m, ch, chunks) && f == Feed(chunks[m.index], None, Done(true, false)) ==>
                  && reply == Accepted(m.index + 1 == |chunks|)
                  && (m.index + 1 < |chunks| ==> Restoring(sha, m', ch, chunks) && m'.index == m.index + 1))
  {
    if Restoring(sha, m, ch, chunks) {
      OneFeed(sha, m, ch, chunks, f);
      HealthyFeed(sha, m, ch, chunks);
    }
  }

  /** Offering chunk files of a store to a restore. */
  method OfferChunks(source: SnapshotStore, target: ManagerObject, height: uint64, offers: seq<Offer>,
                     ghost ch: nat, ghost chunks: seq<bytes>) returns (done: bool)
    requires Restoring(target.store.sha, target.Abs(), ch, chunks) && target.restoreChunkIndex == 0
    requires CollisionFree(target.store.sha, chunks, source.files.Values)
    requires forall i :: 0 <= i < |chunks| ==> SavedAs(source.files, height, i, chunks[i])
    modifies target
    ensures Progress(target.store.sha, target.Abs(), ch, chunks, done)
    ensures InSequence(offers, |chunks|) ==> done
  {
    hide RestoreChunk, CollisionFree, ChunkHashes;
    ghost var sha := target.store.sha;
    done := false;
    for i := 0 to |offers|
      invariant !done && Progress(sha, target.Abs(), ch, chunks, false)
      invariant InSequence(offers, |chunks|) ==>
        Restoring(sha, target.Abs(), ch, chunks) && target.restoreChunkIndex == i
    {
      var chunk := source.LoadChunk(height, CURRENT_FORMAT, offers[i].index);
      assert InSequence(offers, |chunks|) ==> SavedAs(source.files, height, i, chunks[i]) && chunk == Some(chunks[i]);
      if chunk.Some? {
        OneOffer(sha, target.Abs(), ch, chunks, source.files.Values,
          Feed(chunk.value, offers[i].early, offers[i].final));
        var reply := target.RestoreChunkCall(chunk.value, offers[i].early, offers[i].final);
        if reply == Accepted(true) {
          return true;
        }
      }
    }
  }

  /** The transfer.  The snapshot is saved exactly if the source could create it; the restore starts
      exactly if the target is idle and the snapshot is one that `Restore` accepts; if it completes,
      the bytes read are the bytes written; and it completes if the chunks come in sequence. */
  method Transfer(source: ManagerObject, target: ManagerObject, height: uint64, writes: seq<bytes>, chunkSize: nat,
                  offers: seq<Offer>)
    returns (saved: Result<Snapshot>, started: bool, done: bool, restored: bytes)
    requires source.store.Valid() && target.store.sha == source.store.sha
    requires source.operation.OpNone? ==>
      source.chRestore.None? && source.restoreChunkHashes == [] && source.restoreChunkIndex == 0
    requires var chunks := Split(Concat(writes), chunkSize);
             CollisionFree(source.store.sha, chunks, source.store.files.Values + set c | c in chunks)
    modifies source, source.store, target
    ensures saved.Ok? <==>
      && old(source.operation).OpNone?
      && height != 0 && height !in old(source.store.saving)
      && EncodeKey(height, CURRENT_FORMAT) !in old(source.store.db)
      && forall k :: k in old(source.store.db) &&
                     Visible(old(source.store.db)[k].height, old(source.store.db)[k].format) ==>
           old(source.store.db)[k].height < height
    ensures started <==>
      && saved.Ok? && old(target.operation).OpNone?
      && Concat(writes) != [] && height < 0x8000_0000_0000_0000
    ensures done ==> started && restored == Concat(writes)
    ensures started && InSequence(offers, |Split(Concat(writes), chunkSize)|) ==> done
  {
    hide Split, Concat, EncodeKey, CollisionFree, ChunkHashes, RestoreChunk;
    started, done, restored := false, false, [];
    var chunks := WriteChunks(writes, chunkSize);
    ghost var sha, files := source.store.sha, source.store.files;
    saved := source.Create(height, AsBodies(chunks));
    if saved.Err? {
      return;
    }
    FilesOffered(files, source.store.files, height, chunks);
    var ch := target.channels;
    ghost var m := target.Abs();
    CutOfNothing(Concat(writes), chunkSize);
    started := target.RestoreCall(saved.value);
    if !started {
      return;
    }
    FewerOffered(sha, chunks, files.Values + (set c | c in chunks), source.store.files.Values);
    RestoreStarts(sha, m, height, chunks);
    done := OfferChunks(source.store, target, height, offers, ch, chunks);
    if done {
      var ok;
      restored, ok := ReadCut(Concat(writes), chunkSize, target.sent[ch]);
    }
  }

  lemma FilesOffered(before: map<(int, int, int), bytes>, after: map<(int, int, int), bytes>, height: int,
                     chunks: seq<bytes>)
    requires SameElsewhere(before, after, height, CURRENT_FORMAT, |chunks|)
    requires forall i :: 0 <= i < |chunks| ==> SavedAs(after, height, i, chunks[i])
    ensures after.Values <= before.Values + set c | c in chunks
  {
    forall x | x in after.Values ensures x in before.Values + set c | c in chunks {
      var p :| p in after && after[p] == x;
      if p.0 == height && p.1 == CURRENT_FORMAT && 0 <= p.2 < |chunks| {
        assert SavedAs(after, height, p.2, chunks[p.2]);
        assert x == chunks[p.2];
      } else {
        assert before[p] == x;
      }
    }
  }

  lemma FewerOffered(sha: Hash, chunks: seq<bytes>, offered: set<bytes>, fewer: set<bytes>)
    requires CollisionFree(sha, chunks, offered) && fewer <= offered
    ensures CollisionFree(sha, chunks, fewer)
  {
  }

  lemma CutOfNothing(stream: bytes, chunkSize: nat)
    ensures Split(stream, chunkSize) == [] <==> stream == []
  {
    SplitShape(stream, chunkSize);
    if Split(stream, chunkSize) == [] {
      assert Concat([]) == [];
    }
  }
}
