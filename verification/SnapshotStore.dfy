/** The snapshot store (`snapshots/store.go`): metadata in an ordered database, chunks in files. */
module SnapshotStoreObject {
  import opened Bytes
  import opened Gas
  import opened OrderedDb
  import opened SnapshotKeys
  import opened Chunks

  datatype Snapshot = Snapshot(height: uint64, format: uint32, chunks: nat, hash: bytes, chunkHashes: seq<bytes>)

  /** A chunk stream as `Save` sees it: its bytes, or the bytes before an error part way. */
  datatype ChunkBody = Body(content: bytes) | Broken(start: bytes)

  datatype Result<+T> = Ok(value: T) | Err

  type Hash = bytes -> bytes

  /** The only key the half-open iteration range of the store leaves out. */
  predicate Visible(height: uint64, format: uint32) {
    !(height == MAX_UINT64 && format == MAX_UINT32)
  }

  const FIRST: Option<bytes> := Some(EncodeKey(0, 0))
  const LAST: Option<bytes> := Some(EncodeKey(0xFFFF_FFFF_FFFF_FFFF, 0xFFFF_FFFF))

  lemma {:induction false} RangeIsVisible(h: uint64, f: uint32)
    ensures InDomain(EncodeKey(h, f), FIRST, LAST) <==> Visible(h, f)
  {
    KeyOrder(0, 0, h, f);
    KeyOrder(h, f, MAX_UINT64, MAX_UINT32);
  }

  function ChunkHashes(sha: Hash, chunks: seq<bytes>): (r: seq<bytes>)
    ensures |r| == |chunks| && forall i :: 0 <= i < |r| ==> r[i] == sha(chunks[i])
  {
    seq(|chunks|, i requires 0 <= i < |chunks| => sha(chunks[i]))
  }

  /** The metadata of a saved chunk list. */
  function Metadata(sha: Hash, height: uint64, format: uint32, chunks: seq<bytes>): Snapshot {
    Snapshot(height, format, |chunks|, sha(Concat(chunks)), ChunkHashes(sha, chunks))
  }

  predicate AllBodies(chunks: seq<ChunkBody>) {
    forall i :: 0 <= i < |chunks| ==> chunks[i].Body?
  }

  function BodyBytes(chunks: seq<ChunkBody>): seq<bytes>
    requires AllBodies(chunks)
  {
    seq(|chunks|, i requires 0 <= i < |chunks| => chunks[i].content)
  }

  /** Nothing but the first `n` chunk files of one snapshot has changed. */
  ghost predicate SameElsewhere(before: map<(int, int, int), bytes>, after: map<(int, int, int), bytes>, height: int,
                                format: int, n: nat) {
    forall p: (int, int, int) :: !(p.0 == height && p.1 == format && 0 <= p.2 < n) ==>
      (p in after <==> p in before) && (p in before ==> after[p] == before[p])
  }

  lemma WriteNothing(files: map<(int, int, int), bytes>, height: int, format: int, n: nat)
    ensures SameElsewhere(files, files, height, format, n)
  {
  }

  lemma WriteElsewhere(before: map<(int, int, int), bytes>, files: map<(int, int, int), bytes>, height: int,
                       format: int, n: nat, index: nat, content: bytes)
    requires SameElsewhere(before, files, height, format, n) && index < n
    ensures SameElsewhere(before, files[(height, format, index) := content], height, format, n)
  {
  }

  // ---- Retention ----

  /** How many of the heights lie above `h`. */
  function Above(heights: set<int>, h: int): nat {
    |set x | x in heights && x > h|
  }

  /** `h` is among the `retain` greatest of the heights. */
  predicate Retained(heights: set<int>, h: int, retain: nat) {
    Above(heights, h) < retain
  }

  class SnapshotStore {
    const sha: Hash
    var db: map<bytes, Snapshot>
    var files: map<(int, int, int), bytes>
    var formatDirs: set<(int, int)>       // directories of snapshots: height and format
    var heightDirs: set<int>              // directories of heights, which hold those
    var saving: set<int>

    /** Every entry is stored under its own key, and every file and directory in its directory. */
    ghost predicate Valid()
      reads this
    {
      && WellKeyed(db)
      && (forall p :: p in files ==> (p.0, p.1) in formatDirs)
      && (forall p :: p in formatDirs ==> p.0 in heightDirs)
    }

    ghost predicate Has(s: Snapshot)
      reads this
    {
      EncodeKey(s.height, s.format) in db && db[EncodeKey(s.height, s.format)] == s
    }

    /** The distinct heights the iteration range reaches. */
    ghost function Heights(): set<int>
      reads this
    {
      HeightsOf(db)
    }

    constructor (sha: Hash)
      ensures Valid() && db == map[] && saving == {} && files == map[] && heightDirs == {} && this.sha == sha
    {
      this.sha := sha;
      db, files, formatDirs, heightDirs, saving := map[], map[], {}, {}, {};
    }

    /** `Save`: either nothing about the database changes and an error is returned, or exactly
        this snapshot is added, with one file and one hash per chunk. */
    method Save(height: uint64, format: uint32, chunks: seq<ChunkBody>) returns (r: Result<Snapshot>)
      requires Valid()
      modifies this
      ensures Valid()
      ensures saving == old(saving)
      ensures r.Ok? <==>
        && height != 0 && height !in old(saving) && EncodeKey(height, format) !in old(db)
        && AllBodies(chunks)
      ensures r.Err? ==> db == old(db)
      ensures r.Ok? ==>
        && r.value == Metadata(sha, height, format, BodyBytes(chunks))
        && db == old(db)[EncodeKey(height, format) := r.value]
        && (forall i :: 0 <= i < |chunks| ==>
              (height, format, i) in files && files[(height, format, i)] == chunks[i].content)
      ensures SameElsewhere(old(files), files, height, format, |chunks|)
      ensures var made :=
                height != 0 && height !in old(saving) && EncodeKey(height, format) !in old(db) && chunks != [];
              && formatDirs == old(formatDirs) + (if made then {(height, format)} else {})
              && heightDirs == old(heightDirs) + (if made then {height} else {})
    {
      hide EncodeKey, Concat, ChunkHashes;
      if height == 0 { return Err; }
      if height in saving { return Err; }
      saving := saving + {height};
      if EncodeKey(height, format) in db {
        saving := saving - {height};
        return Err;
      }
      var ok, hashes, all := SaveChunks(height, format, chunks);
      saving := saving - {height};
      if !ok {
        return Err;
      }
      var snapshot := Snapshot(height, format, |chunks|, sha(all), hashes);
      db := db[EncodeKey(height, format) := snapshot];
      r := Ok(snapshot);
    }

    /** The loop of `Save` over the chunk streams, writing one file each. */
    method SaveChunks(height: uint64, format: uint32, chunks: seq<ChunkBody>)
      returns (ok: bool, hashes: seq<bytes>, all: bytes)
      requires Valid()
      modifies this`files, this`formatDirs, this`heightDirs
      ensures Valid()
      ensures formatDirs == old(formatDirs) + (if chunks != [] then {(height, format)} else {})
      ensures heightDirs == old(heightDirs) + (if chunks != [] then {height} else {})
      ensures ok <==> AllBodies(chunks)
      ensures ok ==> hashes == ChunkHashes(sha, BodyBytes(chunks)) && all == Concat(BodyBytes(chunks))
      ensures ok ==> forall i :: 0 <= i < |chunks| ==>
        (height, format, i) in files && files[(height, format, i)] == chunks[i].content
      ensures SameElsewhere(old(files), files, height, format, |chunks|)
    {
      hide Concat, WellKeyed, ChunkHashes, BodyBytes, SameElsewhere;
      hashes, all := [], [];
      NoBodies(sha, chunks);
      WriteNothing(files, height, format, |chunks|);
      for index := 0 to |chunks|
        invariant Valid() && AllBodies(chunks[..index])
        invariant formatDirs == old(formatDirs) + (if index > 0 then {(height, format)} else {})
        invariant heightDirs == old(heightDirs) + (if index > 0 then {height} else {})
        invariant hashes == ChunkHashes(sha, BodyBytes(chunks[..index])) && all == Concat(BodyBytes(chunks[..index]))
        invariant forall i :: 0 <= i < index ==>
          (height, format, i) in files && files[(height, format, i)] == chunks[i].content
        invariant SameElsewhere(old(files), files, height, format, |chunks|)
      {
        heightDirs := heightDirs + {height};
        formatDirs := formatDirs + {(height, format)};
        ghost var written := if chunks[index].Body? then chunks[index].content else chunks[index].start;
        WriteElsewhere(old(files), files, height, format, |chunks|, index, written);
        match chunks[index] {
          case Broken(start) =>
            files := files[(height, format, index) := start];
            return false, hashes, all;
          case Body(content) =>
            files := files[(height, format, index) := content];
            BodiesAppend(sha, chunks, index);
            hashes := hashes + [sha(content)];
            all := all + content;
        }
      }
      assert chunks[..|chunks|] == chunks;
      ok := true;
    }

    /** `Delete`: refused exactly while the height is being saved. */
    method Delete(height: uint64, format: uint32) returns (r: Result<()>)
      requires Valid()
      modifies this`db, this`files, this`formatDirs
      ensures Valid()
      ensures r.Err? <==> height in saving
      ensures r.Err? ==> db == old(db) && files == old(files) && formatDirs == old(formatDirs)
      ensures r.Ok? ==> db == old(db) - {EncodeKey(height, format)}
      ensures r.Ok? ==> formatDirs == old(formatDirs) - {(height, format)}
      ensures r.Ok? ==> files == map p | p in old(files) && !(p.0 == height && p.1 == format) :: old(files)[p]
    {
      if height in saving { return Err; }
      db := db - {EncodeKey(height, format)};
      files := map p | p in files && !(p.0 == height && p.1 == format) :: files[p];
      formatDirs := formatDirs - {(height, format)};
      r := Ok(());
    }

    /** `LoadChunk`: the file of a chunk, or nil if there is none. */
    method LoadChunk(height: uint64, format: uint32, index: nat) returns (r: Option<bytes>)
      ensures r == if (height, format, index) in files then Some(files[(height, format, index)]) else None
    {
      if (height, format, index) !in files {
        return None;
      }
      r := Some(files[(height, format, index)]);
    }

    /** `GetLatest`: the stored snapshot with the greatest (height, format), the one invisible key
        apart. */
    method GetLatest() returns (latest: Option<Snapshot>)
      requires Valid()
      ensures latest.Some? ==> Has(latest.value) && Visible(latest.value.height, latest.value.format)
      ensures forall k :: k in db && Visible(db[k].height, db[k].format) ==>
                latest.Some? && !KeyBefore(latest.value.height, latest.value.format, db[k].height, db[k].format)
    {
      var items := ListMap(db, FIRST, LAST, false);
      latest := if items == [] then None else Some(items[0].1);
      if items != [] {
        assert At(items, items[0].0) == Some(items[0].1);
        RangeIsVisible(items[0].1.height, items[0].1.format);
      }
      forall k | k in db && Visible(db[k].height, db[k].format)
        ensures latest.Some? && !KeyBefore(latest.value.height, latest.value.format, db[k].height, db[k].format)
      {
        RangeIsVisible(db[k].height, db[k].format);
        AtMember(items, k);
        var i :| 0 <= i < |items| && items[i] == (k, db[k]);
        Trichotomy(k, items[0].0);
        KeyOrder(latest.value.height, latest.value.format, db[k].height, db[k].format);
      }
    }

    /** `os.Remove` of a height's directory: it must be there and be empty. */
    method RemoveHeightDir(height: int) returns (ok: bool)
      requires Valid()
      modifies this`heightDirs
      ensures Valid()
      ensures ok <==> Removable(height, old(heightDirs), formatDirs)
      ensures heightDirs == if ok then old(heightDirs) - {height} else old(heightDirs)
    {
      ok := height in heightDirs && forall p :: p in formatDirs ==> p.0 != height;
      if ok {
        heightDirs := heightDirs - {height};
      }
    }

    /** The directories of the pruned heights are removed in any order, up to the first failure. */
    method RemoveHeightDirs(pruned: set<int>) returns (ok: bool)
      requires Valid()
      modifies this`heightDirs
      ensures Valid()
      ensures ok <==> forall h :: h in pruned ==> Removable(h, old(heightDirs), formatDirs)
      ensures ok ==> heightDirs == old(heightDirs) - pruned
    {
      var todo: set<int> := pruned;
      while todo != {}
        invariant Valid() && todo <= pruned
        invariant heightDirs == old(heightDirs) - (pruned - todo)
        invariant forall h :: h in pruned - todo ==> Removable(h, old(heightDirs), formatDirs)
        decreases |todo|
      {
        var h := AnyMember(todo);
        var removed := RemoveHeightDir(h);
        if !removed {
          return false;
        }
        todo := todo - {h};
      }
      ok := true;
    }

    /** The loop of `Prune` over the keys, from the greatest down. */
    method DeleteDoomed(retain: uint32) returns (r: Result<nat>, prunedHeights: set<int>)
      requires Valid()
      modifies this`db, this`files, this`formatDirs
      ensures Valid()
      ensures r.Ok? <==> NoneDoomedSaving(old(db), retain, saving)
      ensures forall k :: k in db ==> k in old(db) && db[k] == old(db)[k]
      ensures forall k :: k in old(db) && !Doomed(old(db)[k], old(Heights()), retain) ==> k in db
      ensures r.Ok? ==>
        && r.value == |old(db)| - |db|
        && (forall k :: k in db ==> !Doomed(db[k], old(Heights()), retain))
        && prunedHeights == DoomedHeights(old(db), retain)
        && formatDirs == old(formatDirs) - DoomedDirs(old(db), retain)
    {
      hide EncodeKey, DecodeKey, Doomed, Walk, HeightsOf, Progress, NoneDoomedSaving, WellKeyed, DoomedHeights,
        DoomedDirs, DirProgress;
      ghost var db0, dirs0 := db, formatDirs;
      var items := VisibleDescending(db);
      var pruned := 0;
      prunedHeights := {};
      var skip: set<int> := {};
      PruneStart(db0, items, retain, saving, dirs0);
      for n := 0 to |items|
        invariant Valid() && pruned == |db0| - |db|
        invariant Progress(db0, items, n, retain, saving, skip, db)
        invariant DirProgress(db0, items, n, retain, dirs0, formatDirs, prunedHeights)
      {
        PruneStep(db0, items, n, retain, saving, skip, db);
        DirStep(db0, items, n, retain, dirs0, formatDirs, prunedHeights);
        var (height, format) := DecodeKey(items[n].0).value;
        if height in skip || |skip| < retain {
          skip := skip + {height};
        } else {
          var deleted := Delete(height, format);
          if deleted.Err? {
            PruneOutcome(db0, items, n, retain, saving, skip, db);
            return Err, {};
          }
          pruned := pruned + 1;
          prunedHeights := prunedHeights + {height};
        }
      }
      PruneOutcome(db0, items, |items|, retain, saving, skip, db);
      DirOutcome(db0, items, retain, dirs0, formatDirs, prunedHeights);
      r := Ok(pruned);
    }

    /** `Prune(retain)`: removes the snapshots of all but the `retain` greatest heights (the
        invisible key apart) and reports how many.  It gives up where a height to be pruned is being
        saved.  Otherwise it removes them all, and yet fails exactly if the directory of some pruned
        height is not there or holds anything but the removed snapshots. */
    method Prune(retain: uint32) returns (r: Result<nat>)
      requires Valid()
      modifies this`db, this`files, this`formatDirs, this`heightDirs
      ensures Valid()
      ensures r.Ok? <==>
        && NoneDoomedSaving(old(db), retain, saving)
        && forall k :: k in old(db) && Doomed(old(db)[k], old(Heights()), retain) ==>
             CleanHeight(old(db)[k].height, old(db), retain, old(heightDirs), old(formatDirs))
      ensures forall k :: k in db ==> k in old(db) && db[k] == old(db)[k]
      ensures forall k :: k in old(db) && !Doomed(old(db)[k], old(Heights()), retain) ==> k in db
      ensures NoneDoomedSaving(old(db), retain, saving) ==> forall k :: k in db ==>
        !Doomed(db[k], old(Heights()), retain)
      ensures r.Ok? ==> r.value == |old(db)| - |db|
    {
      hide Doomed, HeightsOf, NoneDoomedSaving, CleanHeight, Removable, DoomedHeights, DoomedDirs, WellKeyed;
      ghost var db0, dirs0 := db, formatDirs;
      var prunedHeights;
      r, prunedHeights := DeleteDoomed(retain);
      if r.Err? {
        return;
      }
      CleanupMeaning(db0, retain, heightDirs, dirs0);
      var removed := RemoveHeightDirs(prunedHeights);
      if !removed {
        return Err;
      }
    }
  }

  predicate Removable(height: int, heightDirs: set<int>, formatDirs: set<(int, int)>) {
    height in heightDirs && forall p :: p in formatDirs ==> p.0 != height
  }

  /** No height to be pruned is being saved. */
  ghost predicate NoneDoomedSaving(db: map<bytes, Snapshot>, retain: nat, saving: set<int>) {
    forall k :: k in db && Doomed(db[k], HeightsOf(db), retain) ==> db[k].height !in saving
  }

  /** The directory of a height exists and holds nothing but snapshots to be pruned. */
  ghost predicate CleanHeight(height: int, db: map<bytes, Snapshot>, retain: nat, heightDirs: set<int>,
                              formatDirs: set<(int, int)>) {
    && height in heightDirs
    && forall p :: p in formatDirs && p.0 == height ==>
         exists k :: k in db && Doomed(db[k], HeightsOf(db), retain) && (db[k].height, db[k].format) == p
  }

  ghost function HeightsOf(db: map<bytes, Snapshot>): set<int> {
    set k | k in db && Visible(db[k].height, db[k].format) :: db[k].height
  }

  /** The snapshots a prune removes. */
  predicate Doomed(s: Snapshot, heights: set<int>, retain: nat) {
    Visible(s.height, s.format) && !Retained(heights, s.height, retain)
  }

  lemma NoBodies(sha: Hash, chunks: seq<ChunkBody>)
    ensures AllBodies(chunks[..0]) && Concat(BodyBytes(chunks[..0])) == []
    ensures ChunkHashes(sha, BodyBytes(chunks[..0])) == []
  {
  }

  lemma BodiesAppend(sha: Hash, chunks: seq<ChunkBody>, index: nat)
    requires index < |chunks| && AllBodies(chunks[..index]) && chunks[index].Body?
    ensures AllBodies(chunks[..index + 1])
    ensures BodyBytes(chunks[..index + 1]) == BodyBytes(chunks[..index]) + [chunks[index].content]
    ensures Concat(BodyBytes(chunks[..index + 1])) == Concat(BodyBytes(chunks[..index])) + chunks[index].content
    ensures ChunkHashes(sha, BodyBytes(chunks[..index + 1])) ==
      ChunkHashes(sha, BodyBytes(chunks[..index])) + [sha(chunks[index].content)]
  {
    ConcatAppend(BodyBytes(chunks[..index]), [chunks[index].content]);
    ConcatOne(chunks[index].content);
    assert BodyBytes(chunks[..index + 1]) == BodyBytes(chunks[..index]) + [chunks[index].content];
  }

  ghost predicate WellKeyed(db: map<bytes, Snapshot>) {
    forall k :: k in db ==> k == EncodeKey(db[k].height, db[k].format)
  }

  /** A descending walk over every visible snapshot, each once, heights never rising. */
  ghost predicate Walk(db: map<bytes, Snapshot>, items: seq<(bytes, Snapshot)>) {
    && (forall j :: 0 <= j < |items| ==> items[j].0 in db && db[items[j].0] == items[j].1)
    && (forall j :: 0 <= j < |items| ==> Visible(items[j].1.height, items[j].1.format))
    && (forall i, j :: 0 <= i < j < |items| ==> items[i].1.height >= items[j].1.height && items[i].0 != items[j].0)
    && (forall k :: k in db && Visible(db[k].height, db[k].format) ==> exists j :: 0 <= j < |items| && items[j].0 == k)
  }

  /** The reverse iterator over the store's key range is such a walk. */
  method VisibleDescending(db: map<bytes, Snapshot>) returns (items: seq<(bytes, Snapshot)>)
    requires WellKeyed(db)
    ensures Walk(db, items)
  {
    hide EncodeKey;
    items := ListMap(db, FIRST, LAST, false);
    forall j | 0 <= j < |items|
      ensures items[j].0 in db && db[items[j].0] == items[j].1 && Visible(items[j].1.height, items[j].1.format)
    {
      AtIndex(items, j);
      RangeIsVisible(items[j].1.height, items[j].1.format);
    }
    forall i, j | 0 <= i < j < |items| ensures items[i].1.height >= items[j].1.height && items[i].0 != items[j].0 {
      KeyOrder(items[j].1.height, items[j].1.format, items[i].1.height, items[i].1.format);
      Trichotomy(items[i].0, items[j].0);
    }
    forall k | k in db && Visible(db[k].height, db[k].format) ensures exists j :: 0 <= j < |items| && items[j].0 == k {
      RangeIsVisible(db[k].height, db[k].format);
      AtMember(items, k);
    }
  }

  lemma {:induction false} AtIndex<V>(items: seq<(bytes, V)>, j: nat)
    requires j < |items| && Ordered(false, items)
    ensures At(items, items[j].0) == Some(items[j].1)
  {
    if j > 0 {
      Trichotomy(items[0].0, items[j].0);
      assert items[j] == items[1..][j - 1];
      AtIndex(items[1..], j - 1);
    }
  }

  ghost function HeightsBefore(items: seq<(bytes, Snapshot)>, n: nat): set<int>
    requires n <= |items|
  {
    set j | 0 <= j < n :: items[j].1.height
  }

  /** The heights above the current one have all been seen before it ... */
  lemma AboveAreSeen(db: map<bytes, Snapshot>, items: seq<(bytes, Snapshot)>, n: nat)
    requires Walk(db, items) && n < |items|
    ensures forall x :: x in HeightsOf(db) && x > items[n].1.height ==> x in HeightsBefore(items, n)
  {
    forall x | x in HeightsOf(db) && x > items[n].1.height ensures x in HeightsBefore(items, n) {
      var k :| k in db && Visible(db[k].height, db[k].format) && db[k].height == x;
      var j :| 0 <= j < |items| && items[j].0 == k;
      assert j < n;
    }
  }

  /** ... and what was seen before it is not below it. */
  lemma SeenAreAbove(db: map<bytes, Snapshot>, items: seq<(bytes, Snapshot)>, n: nat)
    requires Walk(db, items) && n < |items|
    ensures forall x :: x in HeightsBefore(items, n) ==> x in HeightsOf(db) && x >= items[n].1.height
  {
    forall x | x in HeightsBefore(items, n) ensures x in HeightsOf(db) && x >= items[n].1.height {
      var j :| 0 <= j < n && items[j].1.height == x;
      assert items[j].0 in db;
    }
  }

  /** The skipped heights are the retained ones among those seen, and there are as many as fit. */
  ghost predicate SkipInvariant(heights: set<int>, seen: set<int>, skip: set<int>, retain: nat) {
    && (forall h :: h in skip <==> h in seen && Retained(heights, h, retain))
    && |skip| == if |seen| < retain then |seen| else retain
  }

  /** Why comparing the number of skipped heights with `retain` decides retention. */
  lemma SkipDecides(heights: set<int>, seen: set<int>, skip: set<int>, retain: nat, h: int)
    requires SkipInvariant(heights, seen, skip, retain)
    requires forall x :: x in heights && x > h ==> x in seen
    requires forall x :: x in seen ==> x in heights && x >= h
    ensures Retained(heights, h, retain) <==> h in skip || |skip| < retain
    ensures SkipInvariant(heights, seen + {h}, if Retained(heights, h, retain) then skip + {h} else skip, retain)
  {
    assert (set x | x in heights && x > h) == seen - {h};
    if h in seen {
      assert |seen - {h}| == |seen| - 1;
      assert seen + {h} == seen;
      assert h in skip ==> skip + {h} == skip;
    } else {
      assert seen - {h} == seen;
      if |seen| < retain {
        assert skip == seen by {
          assert forall x :: x in skip ==> x in seen;
          SubsetOfSameSize(skip, seen);
        }
      }
    }
  }

  lemma SubsetOfSameSize(a: set<int>, b: set<int>)
    requires a <= b && |a| == |b|
    ensures a == b
  {
    assert |b - a| == |b| - |a|;
  }

  /** The keys to be removed among the first `n` of the walk. */
  ghost function DoomedBefore(items: seq<(bytes, Snapshot)>, n: nat, heights: set<int>, retain: nat): set<bytes>
    requires n <= |items|
  {
    set j | 0 <= j < n && Doomed(items[j].1, heights, retain) :: items[j].0
  }

  /** The directories and the heights of the snapshots a prune removes. */
  ghost function DoomedDirs(db: map<bytes, Snapshot>, retain: nat): set<(int, int)> {
    set k | k in db && Doomed(db[k], HeightsOf(db), retain) :: (db[k].height, db[k].format)
  }

  ghost function DoomedHeights(db: map<bytes, Snapshot>, retain: nat): set<int> {
    set k | k in db && Doomed(db[k], HeightsOf(db), retain) :: db[k].height
  }

  /** The directories left and the heights touched after the first `n` keys of the walk. */
  ghost predicate DirProgress(db: map<bytes, Snapshot>, items: seq<(bytes, Snapshot)>, n: nat, retain: nat,
                              dirs0: set<(int, int)>, dirs: set<(int, int)>, pruned: set<int>)
    requires n <= |items|
  {
    var heights := HeightsOf(db);
    && dirs == dirs0 - (set j | 0 <= j < n && Doomed(items[j].1, heights, retain) ::
      (items[j].1.height, items[j].1.format))
    && pruned == (set j | 0 <= j < n && Doomed(items[j].1, heights, retain) :: items[j].1.height)
  }

  lemma DirStep(db: map<bytes, Snapshot>, items: seq<(bytes, Snapshot)>, n: nat, retain: nat,
                dirs0: set<(int, int)>, dirs: set<(int, int)>, pruned: set<int>)
    requires n < |items| && DirProgress(db, items, n, retain, dirs0, dirs, pruned)
    ensures var s := items[n].1;
            if Doomed(s, HeightsOf(db), retain)
            then DirProgress(db, items, n + 1, retain, dirs0, dirs - {(s.height, s.format)}, pruned + {s.height})
            else DirProgress(db, items, n + 1, retain, dirs0, dirs, pruned)
  {
    hide Doomed, HeightsOf;
  }

  lemma DirOutcome(db: map<bytes, Snapshot>, items: seq<(bytes, Snapshot)>, retain: nat,
                   dirs0: set<(int, int)>, dirs: set<(int, int)>, pruned: set<int>)
    requires Walk(db, items) && DirProgress(db, items, |items|, retain, dirs0, dirs, pruned)
    ensures dirs == dirs0 - DoomedDirs(db, retain) && pruned == DoomedHeights(db, retain)
  {
    hide HeightsOf, Retained;
    forall k | k in db && Doomed(db[k], HeightsOf(db), retain)
      ensures exists j :: 0 <= j < |items| && items[j].1 == db[k]
    {
      var j :| 0 <= j < |items| && items[j].0 == k;
      assert items[j].1 == db[k];
    }
    forall j | 0 <= j < |items| ensures items[j].0 in db && db[items[j].0] == items[j].1 {
    }
  }

  lemma RemoveOneMore<V>(m: map<bytes, V>, gone: set<bytes>, k: bytes)
    requires k in m && k !in gone
    ensures (m - gone) - {k} == m - (gone + {k})
    ensures |m - (gone + {k})| == |m - gone| - 1
  {
    assert (m - gone).Keys == (m - (gone + {k})).Keys + {k};
  }

  /** None of the keys removed so far belonged to a height being saved. */
  ghost predicate NoneSaving(items: seq<(bytes, Snapshot)>, n: nat, heights: set<int>, retain: nat, saving: set<int>)
    requires n <= |items|
  {
    forall j :: 0 <= j < n && Doomed(items[j].1, heights, retain) ==> items[j].1.height !in saving
  }

  /** Where a prune stands after the first `n` keys of the walk. */
  ghost predicate Progress(db0: map<bytes, Snapshot>, items: seq<(bytes, Snapshot)>, n: nat, retain: nat,
                           saving: set<int>,
                           skip: set<int>, db: map<bytes, Snapshot>)
    requires n <= |items|
  {
    var heights := HeightsOf(db0);
    && SkipInvariant(heights, HeightsBefore(items, n), skip, retain)
    && db == db0 - DoomedBefore(items, n, heights, retain)
    && NoneSaving(items, n, heights, retain, saving)
  }

  lemma PruneStart(db: map<bytes, Snapshot>, items: seq<(bytes, Snapshot)>, retain: nat, saving: set<int>,
                   dirs: set<(int, int)>)
    ensures Progress(db, items, 0, retain, saving, {}, db) && DirProgress(db, items, 0, retain, dirs, dirs, {})
  {
    hide HeightsOf;
    assert DoomedBefore(items, 0, HeightsOf(db), retain) == {};
  }

  /** One step of the walk: the test on the skipped heights decides whether the key is doomed. */
  lemma PruneDecision(db: map<bytes, Snapshot>, items: seq<(bytes, Snapshot)>, n: nat, skip: set<int>, retain: nat)
    requires Walk(db, items) && n < |items|
    requires SkipInvariant(HeightsOf(db), HeightsBefore(items, n), skip, retain)
    ensures var s := items[n].1;
            var keep := s.height in skip || |skip| < retain;
            && (keep <==> !Doomed(s, HeightsOf(db), retain))
            && SkipInvariant(HeightsOf(db), HeightsBefore(items, n + 1), if keep then skip + {s.height} else skip,
              retain)
  {
    hide Retained;
    var s, heights := items[n].1, HeightsOf(db);
    AboveAreSeen(db, items, n);
    SeenAreAbove(db, items, n);
    assert HeightsBefore(items, n + 1) == HeightsBefore(items, n) + {s.height};
    SkipDecides(heights, HeightsBefore(items, n), skip, retain, s.height);
  }

  /** The key is removed exactly if it is doomed. */
  lemma PruneStep(db0: map<bytes, Snapshot>, items: seq<(bytes, Snapshot)>, n: nat, retain: nat, saving: set<int>,
                  skip: set<int>, db: map<bytes, Snapshot>)
    requires WellKeyed(db0) && Walk(db0, items) && n < |items| && Progress(db0, items, n, retain, saving, skip, db)
    ensures var (key, s) := items[n];
            var keep := s.height in skip || |skip| < retain;
            && key == EncodeKey(s.height, s.format) && DecodeKey(key) == Some((s.height, s.format))
            && (keep ==> Progress(db0, items, n + 1, retain, saving, skip + {s.height}, db))
            && (!keep ==> Doomed(s, HeightsOf(db0), retain) && |db - {key}| == |db| - 1)
            && (!keep && s.height !in saving ==> Progress(db0, items, n + 1, retain, saving, skip, db - {key}))
            && (keep ==> !Doomed(s, HeightsOf(db0), retain))
  {
    hide EncodeKey, DecodeKey, Doomed, HeightsOf, SkipInvariant, Walk, DoomedBefore, HeightsBefore;
    var (key, s) := items[n];
    var heights := HeightsOf(db0);
    WalkEntry(db0, items, n);
    DecodeEncode(s.height, s.format);
    PruneDecision(db0, items, n, skip, retain);
    DoomedOneMore(db0, items, n, heights, retain);
    RemoveOneMore(db0, DoomedBefore(items, n, heights, retain), key);
  }

  lemma DoomedOneMore(db: map<bytes, Snapshot>, items: seq<(bytes, Snapshot)>, n: nat, heights: set<int>, retain: nat)
    requires Walk(db, items) && n < |items|
    ensures items[n].0 in db && db[items[n].0] == items[n].1
    ensures items[n].0 !in DoomedBefore(items, n, heights, retain)
    ensures DoomedBefore(items, n + 1, heights, retain) ==
            DoomedBefore(items, n, heights, retain) + (if Doomed(items[n].1, heights, retain) then {items[n].0} else {})
  {
    hide Doomed;
  }

  /** What is left once the first `n` keys of the walk are dealt with. */
  lemma PruneOutcome(db0: map<bytes, Snapshot>, items: seq<(bytes, Snapshot)>, n: nat, retain: nat, saving: set<int>,
                     skip: set<int>, db: map<bytes, Snapshot>)
    requires Walk(db0, items) && n <= |items| && Progress(db0, items, n, retain, saving, skip, db)
    ensures forall k :: k in db ==> k in db0 && db[k] == db0[k]
    ensures forall k :: k in db0 && !Doomed(db0[k], HeightsOf(db0), retain) ==> k in db
    ensures n == |items| ==> forall k :: k in db ==> !Doomed(db[k], HeightsOf(db0), retain)
    ensures n == |items| ==> NoneDoomedSaving(db0, retain, saving)
    ensures n < |items| && items[n].1.height in saving && Doomed(items[n].1, HeightsOf(db0), retain) ==>
      !NoneDoomedSaving(db0, retain, saving)
  {
    hide NoneSaving, Walk, Doomed, HeightsOf, SkipInvariant;
    PrunedAreDoomed(db0, items, n, HeightsOf(db0), retain, saving);
    if n < |items| {
      WalkEntry(db0, items, n);
    }
  }

  lemma WalkEntry(db: map<bytes, Snapshot>, items: seq<(bytes, Snapshot)>, n: nat)
    requires Walk(db, items) && n < |items|
    ensures items[n].0 in db && db[items[n].0] == items[n].1
  {
  }

  /** The removed keys are doomed, and by the end all doomed keys are removed. */
  lemma PrunedAreDoomed(db: map<bytes, Snapshot>, items: seq<(bytes, Snapshot)>, n: nat, heights: set<int>,
                        retain: nat, saving: set<int>)
    requires Walk(db, items) && n <= |items|
    ensures forall k :: k in DoomedBefore(items, n, heights, retain) ==> k in db && Doomed(db[k], heights, retain)
    ensures n == |items| ==> forall k :: k in db && Doomed(db[k], heights, retain) ==>
      k in DoomedBefore(items, n, heights, retain)
    ensures n == |items| && NoneSaving(items, n, heights, retain, saving) ==>
              forall k :: k in db && Doomed(db[k], heights, retain) ==> db[k].height !in saving
  {
    hide Retained;
  }

  /** Removing the directories works out exactly if each pruned height is clean. */
  lemma {:induction false} CleanupMeaning(db: map<bytes, Snapshot>, retain: nat, heightDirs: set<int>,
                                          formatDirs: set<(int, int)>)
    ensures (forall h :: h in DoomedHeights(db, retain) ==>
      Removable(h, heightDirs, formatDirs - DoomedDirs(db, retain))) <==>
            (forall k :: k in db && Doomed(db[k], HeightsOf(db), retain) ==>
               CleanHeight(db[k].height, db, retain, heightDirs, formatDirs))
  {
    hide Doomed, HeightsOf, CleanHeight, Removable;
    forall h ensures CleanHeight(h, db, retain, heightDirs, formatDirs) <==>
                     Removable(h, heightDirs, formatDirs - DoomedDirs(db, retain)) {
      CleanIsRemovable(db, retain, heightDirs, formatDirs, h);
    }
    forall k | k in db && Doomed(db[k], HeightsOf(db), retain) ensures db[k].height in DoomedHeights(db, retain) {
    }
  }

  lemma CleanIsRemovable(db: map<bytes, Snapshot>, retain: nat, heightDirs: set<int>, formatDirs: set<(int, int)>,
                         h: int)
    ensures CleanHeight(h, db, retain, heightDirs, formatDirs) <==>
      Removable(h, heightDirs, formatDirs - DoomedDirs(db, retain))
  {
    hide Doomed, HeightsOf;
  }

  /** A snapshot without chunks has no directory: it is pruned, and the prune reports a failure. */
  method PruneWitness(sha: Hash) returns (saved: Result<Snapshot>, pruned: Result<nat>, left: nat)
    ensures saved.Ok? && pruned.Err? && left == 0
  {
    hide EncodeKey, Concat, ChunkHashes;
    var store := new SnapshotStore(sha);
    saved := store.Save(1, 1, []);
    ghost var db, key := store.db, EncodeKey(1, 1);
    assert Doomed(db[key], HeightsOf(db), 0);
    pruned := store.Prune(0);
    assert key !in store.db;
    assert store.db == map[];
    left := |store.db|;
  }
}
