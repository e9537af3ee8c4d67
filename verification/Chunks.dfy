/** Cutting a byte stream into chunks and reading it back (`snapshots/chunk.go`). */
module Chunks {
  import opened Bytes

  function Concat(chunks: seq<bytes>): bytes {
    if chunks == [] then [] else chunks[0] + Concat(chunks[1..])
  }

  lemma {:induction false} ConcatAppend(a: seq<bytes>, b: seq<bytes>)
    ensures Concat(a + b) == Concat(a) + Concat(b)
    decreases |a|
  {
    if a == [] {
      assert a + b == b;
    } else {
      ConcatAppend(a[1..], b);
      assert (a + b)[1..] == a[1..] + b;
      assert Concat(a + b) == a[0] + (Concat(a[1..]) + Concat(b)) == (a[0] + Concat(a[1..])) + Concat(b);
    }
  }

  lemma ConcatOne(c: bytes)
    ensures Concat([c]) == c
  {
    assert [c][1..] == [];
    assert Concat([c]) == c + [];
  }

  /** Reference cut of a stream: pieces of `size` bytes; size 0 means one single piece. */
  function Split(s: bytes, size: nat): seq<bytes>
    decreases |s|
  {
    if s == [] then []
    else if size == 0 || |s| <= size then [s]
    else [s[..size]] + Split(s[size..], size)
  }

  /** Chunks are never empty, all but the last are exactly `size` long, and together they are
      the stream; these facts determine the cut. */
  lemma {:induction false} SplitShape(s: bytes, size: nat)
    ensures var cs := Split(s, size);
            && Concat(cs) == s
            && (forall i :: 0 <= i < |cs| ==> cs[i] != [])
            && (size > 0 ==> forall i :: 0 <= i < |cs| ==> |cs[i]| <= size && (i < |cs| - 1 ==> |cs[i]| == size))
            && (size == 0 ==> |cs| <= 1)
            && (s != [] ==> cs != [])
    decreases |s|
  {
    if s != [] {
      if size == 0 || |s| <= size {
        ConcatOne(s);
      } else {
        SplitShape(s[size..], size);
        assert Split(s, size)[1..] == Split(s[size..], size);
        assert s == s[..size] + s[size..];
      }
    }
  }

  lemma {:induction false} SplitUnique(cs: seq<bytes>, size: nat)
    requires forall i :: 0 <= i < |cs| ==> cs[i] != []
    requires size > 0 ==> forall i :: 0 <= i < |cs| ==> |cs[i]| <= size && (i < |cs| - 1 ==> |cs[i]| == size)
    requires size == 0 ==> |cs| <= 1
    ensures Split(Concat(cs), size) == cs
    decreases |cs|
  {
    if |cs| == 1 {
      ConcatOne(cs[0]);
      assert cs == [cs[0]];
    } else if |cs| > 1 {
      SplitUnique(cs[1..], size);
      var tail := Concat(cs[1..]);
      assert tail == cs[1] + Concat(cs[1..][1..]);
      assert Concat(cs)[..size] == cs[0] && Concat(cs)[size..] == tail;
      assert cs == [cs[0]] + cs[1..];
    }
  }

  datatype Status = Nil | EOF | Failed

  /** `ChunkWriter`.  `chunks` are the pipes sent on the channel with the bytes written to each;
      `room` is how many more bytes the reading side will take before it hangs up (`None` when
      it never does). */
  class ChunkWriter {
    const chunkSize: nat
    var chunks: seq<bytes>
    var written: nat
    var closed: bool
    var room: Option<nat>

    /** Everything written so far. */
    ghost function Stream(): bytes
      reads this
    {
      Concat(chunks)
    }

    /** The cut is the reference cut of the stream, apart from an empty last chunk after the
        reader hung up at a chunk boundary. */
    ghost predicate Valid()
      reads this
    {
      && (chunks != [] ==> written == |chunks[|chunks| - 1]|)
      && (chunkSize > 0 ==> written <= chunkSize)
      && IsCut(chunks, chunkSize)
      && (chunks == Split(Stream(), chunkSize) || room == Some(0))
    }

    constructor (chunkSize: nat, room: Option<nat>)
      ensures this.chunkSize == chunkSize && this.room == room && chunks == [] && !closed && Valid()
    {
      this.chunkSize, this.room := chunkSize, room;
      chunks, written, closed := [], 0, false;
    }

    /** Start a new chunk. */
    method NewChunk()
      modifies this`chunks, this`written
      ensures chunks == old(chunks) + [[]] && written == 0
    {
      chunks := chunks + [[]];
      written := 0;
    }

    /** `pipe.Write` to the current chunk: as many bytes as the reader takes. */
    method PipeWrite(data: bytes) returns (n: nat, err: Status)
      requires chunks != [] && written == |chunks[|chunks| - 1]|
      modifies this`chunks, this`room
      ensures n == (if Takes(old(room), |data|) then |data| else old(room).value)
      ensures err == (if n == |data| then Nil else Failed)
      ensures chunks == old(chunks)[|old(chunks)| - 1 := old(chunks)[|old(chunks)| - 1] + data[..n]]
      ensures room == if old(room).None? then None else Some(old(room).value - n)
    {
      n := if Takes(room, |data|) then |data| else room.value;
      var last := |chunks| - 1;
      chunks := chunks[last := chunks[last] + data[..n]];
      room := if room.None? then None else Some(room.value - n);
      err := if n == |data| then Nil else Failed;
    }

    /** `Write`: for every way of splitting the writes the chunks are the reference cut of all
        bytes taken so far; an error is reported exactly when some bytes were not taken. */
    method Write(data: bytes) returns (nTotal: nat, err: Status)
      requires Valid()
      modifies this`chunks, this`written, this`room
      ensures Valid()
      ensures closed ==> nTotal == 0 && err == Failed && chunks == old(chunks)
      ensures !closed ==> nTotal == (if Takes(old(room), |data|) then |data| else old(room).value)
      ensures !closed ==> err == (if nTotal == |data| then Nil else Failed)
      ensures nTotal <= |data| && Stream() == old(Stream()) + data[..nTotal]
      ensures room == if old(room).None? then None else Some(old(room).value - nTotal)
    {
      hide IsCut, Split, Concat;
      if closed {
        return 0, Failed;
      }
      nTotal := 0;
      var rest := data;
      while |rest| > 0
        invariant Valid() && nTotal <= |data| && rest == data[nTotal..]
        invariant Stream() == old(Stream()) + data[..nTotal]
        invariant room == if old(room).None? then None else Some(old(room).value - nTotal)
        decreases |rest|
      {
        var n;
        n, err := WriteToChunk(rest);
        Regroup(old(Stream()), data, nTotal, n);
        nTotal := nTotal + n;
        if err == Failed {
          return;
        }
        rest := rest[n..];
      }
      err := Nil;
    }

    /** One round of the write loop: start a chunk if there is none or the last one is full, then
        fill it as far as the data go. */
    method WriteToChunk(rest: bytes) returns (n: nat, err: Status)
      requires Valid() && rest != []
      modifies this`chunks, this`written, this`room
      ensures Valid()
      ensures n <= |rest| && Stream() == old(Stream()) + rest[..n]
      ensures room == if old(room).None? then None else Some(old(room).value - n)
      ensures err != EOF && (err == Nil ==> n > 0)
      ensures err == Failed ==> old(room) == Some(n) && n < |rest|
    {
      hide IsCut, Split, Concat;
      ghost var before := chunks;
      if chunks == [] || (written >= chunkSize && chunkSize > 0) {
        NewChunk();
      }
      ghost var begun := chunks;
      var writeSize := if chunkSize == 0 then |rest| else chunkSize - written;
      if writeSize > |rest| {
        writeSize := |rest|;
      }
      n, err := PipeWrite(rest[..writeSize]);
      written := written + n;
      assert rest[..writeSize][..n] == rest[..n];
      BeginChunk(before, begun, chunkSize);
      ExtendChunk(begun, rest[..n], chunkSize);
    }

    /** `Close`: no byte can be written afterwards. */
    method Close()
      modifies this`closed
      ensures closed
    {
      closed := true;
    }
  }

  /** The reader still takes `n` more bytes. */
  predicate Takes(room: Option<nat>, n: nat) {
    room.None? || n <= room.value
  }

  lemma Regroup(a: bytes, data: bytes, i: nat, n: nat)
    requires i + n <= |data|
    ensures (a + data[..i]) + data[i..][..n] == a + data[..i + n]
    ensures data[i..][n..] == data[i + n..]
  {
  }

  /** A cut is the reference cut of its bytes, possibly with an empty chunk begun at its end. */
  predicate IsCut(cs: seq<bytes>, size: nat) {
    && (size == 0 ==> |cs| <= 1)
    && (|cs| > 1 ==> |cs[|cs| - 2]| >= size)
    && (cs == Split(Concat(cs), size) || cs == Split(Concat(cs), size) + [[]])
  }

  /** Beginning a chunk where there is none, or the last one is full, keeps the cut. */
  lemma BeginChunk(before: seq<bytes>, begun: seq<bytes>, size: nat)
    requires IsCut(before, size)
    requires begun == before ||
             (begun == before + [[]] && (before == [] || (size > 0 && |before[|before| - 1]| >= size)))
    ensures IsCut(begun, size) && Concat(begun) == Concat(before)
  {
    ConcatAppend(before, [[]]);
    ConcatOne([]);
    assert Concat(before) + [] == Concat(before);
  }

  /** Adding bytes to a last chunk that has room for them gives the reference cut of the longer
      stream. */
  lemma ExtendChunk(cs: seq<bytes>, d: bytes, size: nat)
    requires cs != [] && IsCut(cs, size)
    requires size > 0 ==> |cs[|cs| - 1]| + |d| <= size
    ensures var cs' := cs[|cs| - 1 := cs[|cs| - 1] + d];
            && Concat(cs') == Concat(cs) + d && IsCut(cs', size)
            && (d != [] ==> cs' == Split(Concat(cs'), size))
  {
    hide Concat, Split;
    var cs' := cs[|cs| - 1 := cs[|cs| - 1] + d];
    ConcatExtendLast(cs, d);
    if d == [] {
      assert cs[|cs| - 1] + d == cs[|cs| - 1];
      assert cs' == cs;
    } else {
      ShapeOfCut(cs, size);
      SplitUnique(cs', size);
    }
  }

  lemma ConcatExtendLast(cs: seq<bytes>, d: bytes)
    requires cs != []
    ensures Concat(cs[|cs| - 1 := cs[|cs| - 1] + d]) == Concat(cs) + d
  {
    var k := |cs| - 1;
    assert cs == cs[..k] + [cs[k]] && cs[k := cs[k] + d] == cs[..k] + [cs[k] + d];
    ConcatAppend(cs[..k], [cs[k]]);
    ConcatAppend(cs[..k], [cs[k] + d]);
    ConcatOne(cs[k]);
    ConcatOne(cs[k] + d);
    assert Concat(cs[..k]) + (cs[k] + d) == (Concat(cs[..k]) + cs[k]) + d;
  }

  lemma ShapeOfCut(cs: seq<bytes>, size: nat)
    requires cs != [] && IsCut(cs, size)
    ensures forall i :: 0 <= i < |cs| - 1 ==> cs[i] != [] && (size > 0 ==> |cs[i]| == size)
    ensures size > 0 ==> |cs[|cs| - 1]| <= size
  {
    SplitShape(Concat(cs), size);
  }

  // ---- Reading back ----

  /** How a chunk ends: at its end of file, at an end of file where closing it fails, or in a read
      error. */
  datatype Ending = EndOfFile | CloseFails | ReadFails

  /** How one chunk answers its reader: some reads that return bytes, then one that reports the
      end, possibly together with last bytes. */
  datatype ChunkSource = ChunkSource(parts: seq<bytes>, last: bytes, end: Ending) {
    function Content(): bytes {
      Concat(parts) + last
    }
  }

  function Contents(chunks: seq<ChunkSource>): bytes {
    if chunks == [] then [] else chunks[0].Content() + Contents(chunks[1..])
  }

  /** Whether reading on reports an error. */
  predicate Breaks(chunks: seq<ChunkSource>) {
    exists i :: 0 <= i < |chunks| && !chunks[i].end.EndOfFile?
  }

  /** The bytes a reader gets before the end or the first error: those of the reads that do not
      report the end of a chunk, and those that come with a read error. */
  function Delivered(chunks: seq<ChunkSource>): bytes {
    if chunks == [] then []
    else match chunks[0].end
      case EndOfFile => Concat(chunks[0].parts) + Delivered(chunks[1..])
      case CloseFails => Concat(chunks[0].parts)
      case ReadFails => chunks[0].Content()
  }

  /** `ChunkReader`: the open chunk, and the channel behind it. */
  class ChunkReader {
    var reader: Option<ChunkSource>
    var ch: seq<ChunkSource>

    /** What is left to be read. */
    ghost function Pending(): seq<ChunkSource>
      reads this
    {
      (if reader.Some? then [reader.value] else []) + ch
    }

    constructor (chunks: seq<ChunkSource>)
      ensures Pending() == chunks
    {
      ch, reader := chunks, None;
    }

    /** `Read`: the next bytes of the current chunk, moving over the ends of chunks.  Without an
        error these bytes and the rest are the former rest; the end is reported exactly at the end;
        an error comes with the last bytes before it. */
    method Read() returns (data: bytes, status: Status)
      modifies this
      ensures status.Nil? ==>
        && data + Delivered(Pending()) == old(Delivered(Pending()))
        && (Breaks(Pending()) <==> old(Breaks(Pending())))
        && TotalReads(Pending()) < old(TotalReads(Pending()))
      ensures status.EOF? ==> data == [] && old(Delivered(Pending())) == [] && !old(Breaks(Pending()))
      ensures status.Failed? ==> data == old(Delivered(Pending())) && old(Breaks(Pending()))
      decreases TotalReads(Pending())
    {
      NothingPending();
      hide Delivered, Breaks, TotalReads;
      if reader.None? {
        if ch == [] {
          return [], EOF;
        }
        assert [] + ch == [ch[0]] + ch[1..];
        reader, ch := Some(ch[0]), ch[1..];
      }
      var source := reader.value;
      if source.parts == [] {
        EndTaken(source, ch);
        match source.end {
          case EndOfFile =>
            // end of this chunk: its last bytes are not returned
            reader := None;
            assert Pending() == ch;
            data, status := Read();
            return;
          case CloseFails =>
            reader := None;
            return [], Failed;
          case ReadFails =>
            return source.last, Failed;
        }
      }
      PartTaken(source, ch);
      reader := Some(source.(parts := source.parts[1..]));
      return source.parts[0], Nil;
    }
  }

  lemma BreaksLater(source: ChunkSource, rest: seq<ChunkSource>)
    ensures Breaks([source] + rest) <==> !source.end.EndOfFile? || Breaks(rest)
  {
    var all := [source] + rest;
    assert forall i :: 0 <= i < |rest| ==> all[i + 1] == rest[i];
    assert all[0] == source;
  }

  lemma NothingPending()
    ensures Delivered([]) == [] && !Breaks([])
  {
  }

  lemma EndTaken(source: ChunkSource, rest: seq<ChunkSource>)
    requires source.parts == []
    ensures var all := [source] + rest;
            match source.end
            case EndOfFile =>
              && Delivered(all) == Delivered(rest) && (Breaks(all) <==> Breaks(rest))
              && TotalReads(rest) < TotalReads(all)
            case CloseFails => Delivered(all) == [] && Breaks(all)
            case ReadFails => Delivered(all) == source.last && Breaks(all)
  {
    BreaksLater(source, rest);
    assert ([source] + rest)[1..] == rest;
    assert [] + Delivered(rest) == Delivered(rest) && [] + source.last == source.last;
  }

  lemma PartTaken(source: ChunkSource, rest: seq<ChunkSource>)
    requires source.parts != []
    ensures var source' := source.(parts := source.parts[1..]);
            && source.parts[0] + Delivered([source'] + rest) == Delivered([source] + rest)
            && (Breaks([source'] + rest) <==> Breaks([source] + rest))
            && TotalReads([source'] + rest) < TotalReads([source] + rest)
  {
    var source' := source.(parts := source.parts[1..]);
    BreaksLater(source, rest);
    BreaksLater(source', rest);
    assert ([source] + rest)[1..] == rest && ([source'] + rest)[1..] == rest;
    var p, q := source.parts[0], Concat(source.parts[1..]);
    assert Concat(source.parts) == p + q;
    assert p + q + Delivered(rest) == p + (q + Delivered(rest));
    assert p + q + source.last == p + (q + source.last);
  }

  function TotalReads(chunks: seq<ChunkSource>): nat {
    if chunks == [] then 0 else |chunks[0].parts| + 1 + TotalReads(chunks[1..])
  }

  /** Read until the end of the stream or the first error. */
  method ReadAll(chunks: seq<ChunkSource>) returns (all: bytes, ok: bool)
    ensures all == Delivered(chunks) && (ok <==> !Breaks(chunks))
    ensures ok && all == Contents(chunks) <==>
            forall i :: 0 <= i < |chunks| ==> chunks[i].end.EndOfFile? && chunks[i].last == []
  {
    hide Delivered, Contents, TotalReads, Breaks;
    var r := new ChunkReader(chunks);
    all := [];
    var status := Nil;
    while status.Nil?
      invariant status.Nil? ==> all + Delivered(r.Pending()) == Delivered(chunks)
      invariant status.Nil? ==> (Breaks(r.Pending()) <==> Breaks(chunks))
      invariant !status.Nil? ==> all == Delivered(chunks) && (status.EOF? <==> !Breaks(chunks))
      decreases status.Nil?, TotalReads(r.Pending())
    {
      var data;
      ghost var before := Delivered(r.Pending());
      data, status := r.Read();
      assert status.Nil? ==> (all + data) + Delivered(r.Pending()) == all + before;
      assert status.EOF? ==> before == [] && all + before == all + data;
      all := all + data;
    }
    ok := status.EOF?;
    NothingLostIff(chunks);
  }

  lemma {:induction false} LostBytes(chunks: seq<ChunkSource>)
    requires !Breaks(chunks)
    ensures |Delivered(chunks)| <= |Contents(chunks)|
    ensures (forall i :: 0 <= i < |chunks| ==> chunks[i].last == []) ==> Delivered(chunks) == Contents(chunks)
    ensures forall i :: 0 <= i < |chunks| && chunks[i].last != [] ==> |Delivered(chunks)| < |Contents(chunks)|
  {
    if chunks != [] {
      assert chunks == [chunks[0]] + chunks[1..];
      BreaksLater(chunks[0], chunks[1..]);
      LostBytes(chunks[1..]);
      assert forall i :: 0 < i < |chunks| ==> chunks[i] == chunks[1..][i - 1];
      if chunks[0].last == [] {
        assert chunks[0].Content() == Concat(chunks[0].parts);
      }
    }
  }

  /** The reader returns the whole stream, and no error, exactly when every chunk ends in a bare end
      of file: bytes handed over together with an end of file are lost. */
  lemma {:induction false} NothingLostIff(chunks: seq<ChunkSource>)
    ensures !Breaks(chunks) && Delivered(chunks) == Contents(chunks) <==>
            forall i :: 0 <= i < |chunks| ==> chunks[i].end.EndOfFile? && chunks[i].last == []
  {
    hide Delivered, Contents;
    if !Breaks(chunks) {
      LostBytes(chunks);
      assert forall i :: 0 <= i < |chunks| ==> chunks[i].end.EndOfFile?;
    }
  }

  /** A chunk of one byte that arrives with its end of file is read as nothing, without an error. */
  lemma LostByteWitness()
    ensures var chunks := [ChunkSource([], [7], EndOfFile)];
            Contents(chunks) == [7] && Delivered(chunks) == [] && !Breaks(chunks)
  {
    var chunks := [ChunkSource([], [7], EndOfFile)];
    assert chunks[1..] == [];
  }

  /** A chunk held in memory, as the snapshot manager passes it on: all bytes, then a bare end. */
  function InMemory(chunk: bytes): ChunkSource {
    ChunkSource([chunk], [], EndOfFile)
  }

  function AllInMemory(chunks: seq<bytes>): (r: seq<ChunkSource>)
    ensures |r| == |chunks| && forall i :: 0 <= i < |r| ==> r[i] == InMemory(chunks[i])
  {
    seq(|chunks|, i requires 0 <= i < |chunks| => InMemory(chunks[i]))
  }

  lemma {:induction false} InMemoryContents(chunks: seq<bytes>)
    ensures Contents(AllInMemory(chunks)) == Concat(chunks)
  {
    if chunks != [] {
      InMemoryContents(chunks[1..]);
      assert AllInMemory(chunks)[1..] == AllInMemory(chunks[1..]);
      ConcatOne(chunks[0]);
      assert InMemory(chunks[0]).Content() == chunks[0];
    }
  }

  /** However a stream is written, its chunks are the reference cut of it. */
  method WriteChunks(writes: seq<bytes>, chunkSize: nat) returns (chunks: seq<bytes>)
    ensures chunks == Split(Concat(writes), chunkSize)
  {
    hide Concat, Split, IsCut;
    var w := new ChunkWriter(chunkSize, None);
    assert writes[..0] == [];
    for i := 0 to |writes|
      invariant w.Valid() && !w.closed && w.room.None? && w.chunkSize == chunkSize
      invariant w.Stream() == Concat(writes[..i])
    {
      var n, err := w.Write(writes[i]);
      assert writes[i][..n] == writes[i];
      assert writes[..i + 1] == writes[..i] + [writes[i]];
      ConcatAppend(writes[..i], [writes[i]]);
      ConcatOne(writes[i]);
    }
    w.Close();
    assert writes[..|writes|] == writes;
    chunks := w.chunks;
  }

  /** Chunks of a cut that are held in memory read back as the stream. */
  method ReadCut(ghost stream: bytes, ghost chunkSize: nat, chunks: seq<bytes>) returns (all: bytes, ok: bool)
    requires chunks == Split(stream, chunkSize)
    ensures ok && all == stream
  {
    hide Split, Delivered, Contents, Breaks;
    SplitShape(stream, chunkSize);
    InMemoryContents(chunks);
    all, ok := ReadAll(AllInMemory(chunks));
  }

  /** Writer and reader are inverse: whatever sequence of writes produced a cut, reading its
      chunks back gives the written bytes. */
  method WriteThenRead(writes: seq<bytes>, chunkSize: nat) returns (chunks: seq<bytes>, all: bytes)
    ensures chunks == Split(Concat(writes), chunkSize)
    ensures all == Concat(writes)
  {
    hide Concat, Split;
    chunks := WriteChunks(writes, chunkSize);
    var ok;
    all, ok := ReadCut(Concat(writes), chunkSize, chunks);
  }
}
