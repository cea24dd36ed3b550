/** The program that reads a sparse image and sends its runs, proved to leave on the device what the un-sparser
    would. */
module SparseProgram {
  import opened CTypes
  import opened LittleEndian
  import opened RawImage
  import opened Sequences
  import opened Sparse

  const MAX_RUNS: nat := 100
  const FILL: nat := 0xCAC2

  function U32(n: nat): nat
  {
    n % TWO32
  }

  /** The table of runs: 100 runs of data, 100 runs of holes between them. */
  class SparseImg {
    const data: array<Totals>
    const holes: array<Totals>
    var totalCount: nat
    var totalCac3Count: nat
    var firstOffset: nat

    ghost predicate Valid()
      reads this
    {
      data != holes && data.Length == MAX_RUNS && holes.Length == MAX_RUNS
      && totalCount <= MAX_RUNS && totalCac3Count <= MAX_RUNS
    }

    ghost function Data(): seq<Totals>
      requires Valid()
      reads this, data
    {
      data[..totalCount]
    }

    ghost function Holes(): seq<Totals>
      requires Valid()
      reads this, holes
    {
      holes[..totalCac3Count]
    }

    constructor ()
      ensures Valid() && fresh(data) && fresh(holes) && Data() == [] && Holes() == []
    {
      data := new Totals[MAX_RUNS](_ => NOTHING);
      holes := new Totals[MAX_RUNS](_ => NOTHING);
      totalCount, totalCac3Count, firstOffset := 0, 0, 0;
    }

    method StoreData(t: Totals)
      requires Valid() && totalCount < MAX_RUNS && t.count < 0x1_0000
      modifies `totalCount, data
      ensures Valid() && Data() == old(Data()) + [t] && Holes() == old(Holes())
    {
      data[totalCount] := t.(count := t.count % 0x1_0000);
      totalCount := totalCount + 1;
    }

    method StoreHoles(t: Totals)
      requires Valid() && totalCac3Count < MAX_RUNS && t.count < 0x1_0000
      modifies `totalCac3Count, holes
      ensures Valid() && Holes() == old(Holes()) + [t] && Data() == old(Data())
    {
      holes[totalCac3Count] := t.(count := t.count % 0x1_0000);
      totalCac3Count := totalCac3Count + 1;
    }

    method Clear()
      requires Valid()
      modifies this, data, holes
      ensures Valid() && Data() == [] && Holes() == [] && firstOffset == 0
    {
      forall i | 0 <= i < MAX_RUNS {
        data[i] := NOTHING;
      }
      forall i | 0 <= i < MAX_RUNS {
        holes[i] := NOTHING;
      }
      totalCount, totalCac3Count, firstOffset := 0, 0, 0;
    }

    /** Scans the chunk headers of the file and keeps the runs. */
    method ProcessSparseProgram(file: seq<byte>, ghost chunks: seq<Chunk>)
      requires Valid() && IsImage(file, chunks) && FitsTable(chunks)
      modifies this, data, holes
      ensures Valid() && firstOffset == FILE_HEADER_SIZE
      ensures Data() == Finished(ScanFrom(START, chunks)).data
      ensures Holes() == Finished(ScanFrom(START, chunks)).holes
    {
      hide ScanFrom, ScanStep, ChunksAt, ChunkAt, U16At, U32At, Blocks, FitsTable, ChunkSize, Finished, Scanned;
      hide Accumulate, DataOf, BlocksOf, IsImage, Add;
      StartScan(file, chunks);
      Clear();
      firstOffset := U16At(file, 8);
      var totals := NOTHING;
      var lastType: nat, m: nat, pos: nat := 0, 0, FILE_HEADER_SIZE;
      var totalChunks := U32At(file, 20);
      ghost var s := START;
      FinishedIs(START);
      while m < totalChunks
        invariant Valid() && m <= totalChunks == |chunks| && firstOffset == FILE_HEADER_SIZE
        invariant Scanned(file, chunks, m, pos, s)
        invariant totals == s.run && lastType == s.lastType && Holes() == s.holes
        invariant Data() == if m == |chunks| then Finished(s).data else s.data
      {
        ghost var c := ScanOne(file, chunks, m, pos, s);
        StepEffects(s, c);
        FinishedIs(s);
        FinishedIs(ScanStep(s, c));
        var chunkType, chunkSz, totalSz := U16At(file, pos), U32At(file, pos + 4), U32At(file, pos + 8);
        pos := pos + CHUNK_HEADER_SIZE;
        if chunkType == RAW || chunkType == FILL {
          if lastType != RAW && lastType != FILL && lastType != 0 {
            StoreHoles(totals);
            totals := Totals(chunkSz, totalSz - CHUNK_HEADER_SIZE, 1);
          } else if lastType == 0 {
            totals := Totals(chunkSz, totalSz - CHUNK_HEADER_SIZE, 1);
          } else {
            totals := Accumulate(totals, chunkSz, totalSz);
          }
          pos := pos + (totalSz - CHUNK_HEADER_SIZE);
        }
        if chunkType == DONT_CARE {
          if lastType != DONT_CARE && lastType != 0 {
            StoreData(totals);
            totals := Totals(chunkSz, totalSz - CHUNK_HEADER_SIZE, 1);
          } else {
            totals := Accumulate(totals, chunkSz, totalSz);
          }
          pos := pos + (totalSz - CHUNK_HEADER_SIZE);
        }
        if m == totalChunks - 1 && (chunkType == RAW || chunkType == FILL) {
          StoreData(totals);
        }
        lastType := chunkType;
        s := ScanStep(s, c);
        m := m + 1;
      }
      EndScan(file, chunks, pos, s);
      FinishedIs(s);
    }
  }

  /** Adding a chunk to the running totals, in 32 bits. */
  function Accumulate(t: Totals, chunkSz: nat, totalSz: nat): Totals
    requires totalSz >= CHUNK_HEADER_SIZE
  {
    Totals(U32(t.blocks + chunkSz), U32(t.bytes + (totalSz - CHUNK_HEADER_SIZE)), U32(t.count + 1))
  }

  /** The runs fit the tables, each has fewer chunks than 16 bits count, and the blocks of the image fit 32 bits. */
  ghost predicate FitsTable(chunks: seq<Chunk>)
  {
    var f := Finished(ScanFrom(START, chunks));
    Blocks(chunks) < TWO32 && |f.data| <= MAX_RUNS && |f.holes| <= MAX_RUNS && RunsAreCounted(chunks)
  }

  predicate SameType(chunks: seq<Chunk>, i: nat, j: nat)
    requires i < j <= |chunks|
  {
    forall k :: i <= k < j ==> TypeOf(chunks[k]) == TypeOf(chunks[i])
  }

  /** Chunks of one type behind each other are fewer than 16 bits count, unless they are holes that end the image. */
  ghost predicate RunsAreCounted(chunks: seq<Chunk>)
  {
    forall i: nat, j: nat ::
      i < j <= |chunks| && SameType(chunks, i, j) && (chunks[i].Raw? || (j < |chunks| && chunks[j].Raw?))
      ==> j - i < 0x1_0000
  }

  /** The run being gathered are the chunks just read. */
  ghost predicate RunIsLast(s: Scan, chunks: seq<Chunk>, m: nat)
    requires m <= |chunks|
  {
    && s.run.count <= m
    && (s.lastType == 0 <==> s.run.count == 0)
    && forall k :: m - s.run.count <= k < m ==> TypeOf(chunks[k]) == s.lastType
  }

  lemma RunStaysLast(s: Scan, chunks: seq<Chunk>, m: nat)
    requires m < |chunks| && RunIsLast(s, chunks, m) && s.lastType in {0, RAW, DONT_CARE}
    ensures RunIsLast(ScanStep(s, chunks[m]), chunks, m + 1)
  {
  }

  /** A run is counted in 16 bits when it is stored. */
  lemma StoredRun(s: Scan, chunks: seq<Chunk>, m: nat)
    requires m <= |chunks| && RunIsLast(s, chunks, m) && RunsAreCounted(chunks)
    requires s.lastType == RAW || (s.lastType == DONT_CARE && m < |chunks| && chunks[m].Raw?)
    ensures s.run.count < 0x1_0000
  {
    assert SameType(chunks, m - s.run.count, m);
  }

  /** The scan has read m chunks, is in state s, and no total has overflowed. */
  ghost predicate Scanned(file: seq<byte>, chunks: seq<Chunk>, m: nat, pos: nat, s: Scan)
    requires m <= |chunks|
  {
    && ScanFrom(s, chunks[m..]) == ScanFrom(START, chunks)
    && ChunksAt(file, pos, chunks[m..])
    && s.run.blocks + Blocks(chunks[m..]) <= Blocks(chunks)
    && s.run.bytes <= pos <= |file| && RunIsLast(s, chunks, m)
    && s.lastType in {0, RAW, DONT_CARE}
    && (s.lastType == 0 ==> s == START)
  }

  lemma {:induction false} ScanGrows(s: Scan, chunks: seq<Chunk>)
    ensures |s.data| <= |Finished(ScanFrom(s, chunks)).data| && |s.holes| <= |Finished(ScanFrom(s, chunks)).holes|
    ensures |Finished(s).data| <= |Finished(ScanFrom(s, chunks)).data| || chunks != []
    decreases |chunks|
  {
    if chunks != [] {
      ScanGrows(ScanStep(s, chunks[0]), chunks[1..]);
    }
  }

  lemma HeaderAt(file: seq<byte>, pos: nat, rest: seq<Chunk>)
    requires ChunksAt(file, pos, rest) && rest != []
    ensures ChunkAt(file, pos, rest[0]) && ChunksAt(file, pos + ChunkSize(rest[0]), rest[1..])
    ensures pos + ChunkSize(rest[0]) <= |file|
    ensures U16At(file, pos) == TypeOf(rest[0]) && U32At(file, pos + 4) == BlocksOf(rest[0])
    ensures U32At(file, pos + 8) == ChunkSize(rest[0])
  {
  }

  lemma ScanAdvances(s: Scan, rest: seq<Chunk>)
    requires rest != []
    ensures ScanFrom(s, rest) == ScanFrom(ScanStep(s, rest[0]), rest[1..])
    ensures Blocks(rest) == BlocksOf(rest[0]) + Blocks(rest[1..])
  {
  }

  /** What one chunk does to the state, in terms of what the program stores and accumulates. */
  lemma StepEffects(s: Scan, c: Chunk)
    requires s.lastType in {0, RAW, DONT_CARE} && (s.lastType == 0 ==> s == START)
    requires s.run.blocks + BlocksOf(c) < TWO32 && s.run.bytes + |DataOf(c)| < TWO32 && s.run.count + 1 < TWO32
    ensures var next, first := ScanStep(s, c), Totals(BlocksOf(c), |DataOf(c)|, 1);
            && next.lastType == TypeOf(c)
            && next.data == (if s.lastType == RAW && c.Hole? then s.data + [s.run] else s.data)
            && next.holes == (if s.lastType == DONT_CARE && c.Raw? then s.holes + [s.run] else s.holes)
            && next.run == (if s.lastType == TypeOf(c) then Accumulate(s.run, BlocksOf(c), ChunkSize(c)) else first)
            && (s.lastType == 0 ==> Accumulate(s.run, BlocksOf(c), ChunkSize(c)) == first)
  {
    hide Accumulate, ChunkSize, BlocksOf, DataOf;
    AccumulateIsAdd(s.run, c);
  }

  lemma AccumulateIsAdd(t: Totals, c: Chunk)
    requires t.blocks + BlocksOf(c) < TWO32 && t.bytes + |DataOf(c)| < TWO32 && t.count + 1 < TWO32
    ensures Accumulate(t, BlocksOf(c), ChunkSize(c)) == Add(t, c)
  {
    hide BlocksOf, DataOf;
  }

  lemma RunGrowsBy(s: Scan, c: Chunk)
    ensures ScanStep(s, c).run.blocks <= s.run.blocks + BlocksOf(c)
    ensures ScanStep(s, c).run.bytes <= s.run.bytes + |DataOf(c)| && ScanStep(s, c).run.count <= s.run.count + 1
  {
  }

  lemma StepType(s: Scan, c: Chunk)
    requires s.lastType in {0, RAW, DONT_CARE}
    ensures ScanStep(s, c).lastType == TypeOf(c)
  {
  }

  lemma StartScan(file: seq<byte>, chunks: seq<Chunk>)
    requires IsImage(file, chunks)
    ensures FILE_HEADER_SIZE <= |file| && U16At(file, 8) == FILE_HEADER_SIZE && U32At(file, 20) == |chunks|
    ensures Scanned(file, chunks, 0, FILE_HEADER_SIZE, START)
  {
    hide ScanFrom, Blocks;
    assert chunks[0..] == chunks;
  }

  lemma EndScan(file: seq<byte>, chunks: seq<Chunk>, pos: nat, s: Scan)
    requires Scanned(file, chunks, |chunks|, pos, s)
    ensures s == ScanFrom(START, chunks)
  {
    assert chunks[|chunks|..] == [];
  }

  lemma FinishedIs(s: Scan)
    ensures Finished(s).data == if s.lastType == RAW then s.data + [s.run] else s.data
    ensures Finished(s).holes == s.holes
  {
  }

  /** One more chunk: what its header says, the next state, and the room for what is stored. */
  lemma ScanOne(file: seq<byte>, chunks: seq<Chunk>, m: nat, pos: nat, s: Scan) returns (c: Chunk)
    requires IsImage(file, chunks) && FitsTable(chunks) && m < |chunks| && Scanned(file, chunks, m, pos, s)
    ensures c == chunks[m] && pos + CHUNK_HEADER_SIZE + |DataOf(c)| <= |file|
    ensures U16At(file, pos) == TypeOf(c) && U32At(file, pos + 4) == BlocksOf(c)
    ensures U32At(file, pos + 8) == ChunkSize(c) == CHUNK_HEADER_SIZE + |DataOf(c)|
    ensures Scanned(file, chunks, m + 1, pos + ChunkSize(c), ScanStep(s, c))
    ensures s.run.blocks + BlocksOf(c) < TWO32 && s.run.bytes + |DataOf(c)| < TWO32 && s.run.count + 1 < TWO32
    ensures s.lastType == RAW || (s.lastType == DONT_CARE && c.Raw?) ==> s.run.count < 0x1_0000
    ensures s.lastType in {0, RAW, DONT_CARE} && (s.lastType == 0 ==> s == START)
    ensures c.Raw? ==> ScanStep(s, c).run.count < 0x1_0000
    ensures |ScanStep(s, c).data| <= MAX_RUNS && |ScanStep(s, c).holes| <= MAX_RUNS
    ensures m + 1 == |chunks| ==> |Finished(ScanStep(s, c)).data| <= MAX_RUNS
  {
    hide ScanFrom, ChunksAt, ChunkAt, U16At, U32At, Blocks, DataOf, BlocksOf, Finished;
    c := chunks[m];
    var rest := chunks[m..];
    assert rest[0] == c && rest[1..] == chunks[m + 1..];
    HeaderAt(file, pos, rest);
    ScanAdvances(s, rest);
    RunGrowsBy(s, c);
    RunStaysLast(s, chunks, m);
    if s.lastType == RAW || (s.lastType == DONT_CARE && c.Raw?) {
      StoredRun(s, chunks, m);
    }
    if c.Raw? {
      StepType(s, c);
      StoredRun(ScanStep(s, c), chunks, m + 1);
    }
    ScanGrows(ScanStep(s, c), rest[1..]);
  }

  // ---------- Streaming a run ----------

  /** The data of one chunk, in pieces of one payload and a rest. */
  method SendChunkData(file: seq<byte>, start: nat, size: nat, pbuf: array<byte>)
    returns (pieces: seq<seq<byte>>, pos: nat)
    requires start + size <= |file| && Whole(size, SECTOR_SIZE)
    requires pbuf.Length > 0 && Whole(pbuf.Length, SECTOR_SIZE)
    modifies pbuf
    ensures Join(pieces) == file[start..start + size] && pos == start + size
    ensures WholeSectors(pieces) && AtMost(pieces, pbuf.Length)
  {
    hide Join, Padded, Whole, WholeSectors, AtMost;
    var payload := pbuf.Length;
    var left: nat := size;
    pos, pieces := start, [];
    NoPieces(payload);
    while left >= payload
      invariant left <= size && pos == start + (size - left) && Whole(left, SECTOR_SIZE)
      invariant Join(pieces) == file[start..pos]
      invariant WholeSectors(pieces) && AtMost(pieces, payload)
    {
      var got, next := ReadPadded(file, pos, pbuf, payload, SECTOR_SIZE);
      WholeSum(payload, left - payload, SECTOR_SIZE);
      SentWhole(file, start, pos, next, pieces, pbuf[..got], payload);
      pieces := pieces + [pbuf[..got]];
      left, pos := left - payload, next;
    }
    if left > 0 {
      var got, next := ReadPadded(file, pos, pbuf, left, SECTOR_SIZE);
      SentWhole(file, start, pos, next, pieces, pbuf[..got], payload);
      pieces := pieces + [pbuf[..got]];
      pos := next;
    }
  }

  ghost predicate AtMost(pieces: seq<seq<byte>>, payload: nat)
  {
    forall i :: 0 <= i < |pieces| ==> |pieces[i]| <= payload
  }

  /** A read of whole sectors is sent as it is. */
  lemma SentWhole(file: seq<byte>, start: nat, pos: nat, next: nat, pieces: seq<seq<byte>>, piece: seq<byte>,
                  payload: nat)
    requires start <= pos <= next <= |file| && Whole(next - pos, SECTOR_SIZE) && next - pos <= payload
    requires piece == Padded(file[pos..next], SECTOR_SIZE)
    requires Join(pieces) == file[start..pos] && WholeSectors(pieces) && AtMost(pieces, payload)
    ensures Join(pieces + [piece]) == file[start..next]
    ensures WholeSectors(pieces + [piece]) && AtMost(pieces + [piece], payload)
  {
    hide Join, Padded;
    PaddedWhole(file[pos..next], SECTOR_SIZE);
    JoinAppend(pieces, piece);
    assert file[start..pos] + file[pos..next] == file[start..next];
  }

  lemma NoPieces(payload: nat)
    ensures Join<byte>([]) == [] && WholeSectors([]) && AtMost([], payload)
  {
  }

  lemma MorePieces(pieces: seq<seq<byte>>, more: seq<seq<byte>>, payload: nat)
    requires WholeSectors(pieces) && AtMost(pieces, payload) && WholeSectors(more) && AtMost(more, payload)
    ensures WholeSectors(pieces + more) && AtMost(pieces + more, payload)
    ensures Join(pieces + more) == Join(pieces) + Join(more)
  {
    JoinConcat(pieces, more);
  }

  /** The sparse branch of fh_send_rawmode_image: from offset on, chunk headers are skipped and data is sent until
      filesize bytes are out. Holes among the chunks have no data to send. */
  method SendRun(file: seq<byte>, offset: nat, filesize: nat, payload: nat, ghost run: seq<Chunk>)
    returns (pieces: seq<seq<byte>>)
    requires payload > 0 && Whole(payload, SECTOR_SIZE)
    requires ChunksAt(file, offset, run) && run != [] && Aligned(run) && Bytes(run) == filesize
    ensures Join(pieces) == AllData(run) && WholeSectors(pieces)
    ensures AtMost(pieces, payload)
  {
    hide Whole, WholeSectors, AtMost, ChunkSize, DataOf, Join, AllData, ChunksAt, ChunkAt, Bytes, U32At, Aligned;
    var pbuf := new byte[payload];
    var pos: nat, filesend: nat := offset, 0;
    ghost var rest := run;
    pieces := [];
    NoPieces(payload);
    while true
      invariant rest != [] && ChunksAt(file, pos, rest) && Aligned(rest)
      invariant Join(pieces) + AllData(rest) == AllData(run)
      invariant filesend + Bytes(rest) == filesize
      invariant WholeSectors(pieces) && AtMost(pieces, payload)
      decreases |rest|
    {
      OneChunk(file, pos, rest);
      var size := U32At(file, pos + 8) - CHUNK_HEADER_SIZE;
      pos := pos + CHUNK_HEADER_SIZE;
      var sent, next := SendChunkData(file, pos, size, pbuf);
      MorePieces(pieces, sent, payload);
      ConcatAssociates(Join(pieces), Join(sent), AllData(rest[1..]));
      pieces := pieces + sent;
      filesend := filesend + size;
      pos := next;
      rest := rest[1..];
      if filesend >= filesize {
        AllDataLength(rest);
        break;
      }
      NoBytes();
    }
  }

  lemma NoBytes()
    ensures Bytes([]) == 0
  {
  }

  lemma OneChunk(file: seq<byte>, pos: nat, rest: seq<Chunk>)
    requires ChunksAt(file, pos, rest) && rest != [] && Aligned(rest)
    ensures Aligned(rest[1..]) && ChunksAt(file, pos + ChunkSize(rest[0]), rest[1..])
    ensures pos + ChunkSize(rest[0]) <= |file| && U32At(file, pos + 8) == ChunkSize(rest[0])
    ensures ChunkSize(rest[0]) == CHUNK_HEADER_SIZE + |DataOf(rest[0])| && Whole(|DataOf(rest[0])|, SECTOR_SIZE)
    ensures file[pos + CHUNK_HEADER_SIZE..pos + ChunkSize(rest[0])] == DataOf(rest[0])
    ensures AllData(rest) == DataOf(rest[0]) + AllData(rest[1..])
    ensures Bytes(rest) == |DataOf(rest[0])| + Bytes(rest[1..])
  {
    hide U16At, U32At;
    BlocksAreSectors(|DataOf(rest[0])|);
  }

  lemma BlocksAreSectors(n: nat)
    requires n % BLOCK_SIZE == 0
    ensures Whole(n, SECTOR_SIZE)
  {
  }

  // ---------- One command for every run ----------

  /** Each command follows from the one before it. */
  lemma {:induction false} CommandsFollow(data: seq<Totals>, holes: seq<Totals>, sector: nat, offset: nat, i: nat)
    requires |holes| + 1 >= |data| && i < |data|
    ensures var commands := Commands(data, holes, sector, offset);
            && |commands| == |data| && commands[i].bytes == data[i].bytes
            && (i == 0 ==> commands[0] == Command(sector, offset, data[0].bytes))
            && (i > 0 ==>
                  && commands[i].startSector
                     == commands[i - 1].startSector + SectorsOf(data[i - 1].bytes) + 8 * holes[i - 1].blocks
                  && commands[i].fileOffset
                     == commands[i - 1].fileOffset + data[i - 1].bytes
                        + CHUNK_HEADER_SIZE * (data[i - 1].count + holes[i - 1].count))
    decreases |data|
  {
    hide SectorsOf;
    if |data| > 1 {
      var sector2 := sector + SectorsOf(data[0].bytes) + 8 * holes[0].blocks;
      var offset2 := offset + data[0].bytes + CHUNK_HEADER_SIZE * (data[0].count + holes[0].count);
      CommandsFollow(data[1..], holes[1..], sector2, offset2, if i == 0 then 0 else i - 1);
      if i == 1 {
        assert Commands(data, holes, sector, offset)[1] == Commands(data[1..], holes[1..], sector2, offset2)[0];
      }
    }
  }

  /** Transfer i carries the data of run i to the start of its command. */
  ghost predicate CarriesRuns(transfers: seq<Transfer>, commands: seq<Command>, runs: seq<seq<Chunk>>)
  {
    && |transfers| <= |commands| == |runs|
    && forall i :: 0 <= i < |transfers| ==> Carries(transfers[i], commands[i], runs[i])
  }

  ghost predicate Carries(t: Transfer, c: Command, run: seq<Chunk>)
  {
    && t.startSector == c.startSector && t.sectors * SECTOR_SIZE == |Join(t.pieces)|
    && Join(t.pieces) == AllData(run) && WholeSectors(t.pieces)
  }

  /** Carrying every run is writing every run. */
  lemma {:induction false} ProgramWritesRuns(dev: Device, transfers: seq<Transfer>, commands: seq<Command>,
                                             runs: seq<seq<Chunk>>)
    requires |transfers| == |commands| == |runs| && CarriesRuns(transfers, commands, runs)
    ensures Program(dev, transfers) == WriteRuns(dev, commands, runs)
    decreases |transfers|
  {
    hide Receive, WriteSectors, AllData, Join, WholeSectors;
    if transfers != [] {
      var t := transfers[0];
      assert Carries(t, commands[0], runs[0]);
      ReceiveIsWrite(dev, t.startSector, t.pieces);
      assert forall i :: 0 <= i < |transfers| - 1 ==> Carries(transfers[1..][i], commands[1..][i], runs[1..][i]) by {
        forall i | 0 <= i < |transfers| - 1
          ensures Carries(transfers[1..][i], commands[1..][i], runs[1..][i])
        {
          assert Carries(transfers[i + 1], commands[i + 1], runs[i + 1]);
        }
      }
      ProgramWritesRuns(Receive(dev, t.startSector, t.pieces), transfers[1..], commands[1..], runs[1..]);
    }
  }

  /** An image the program can handle: it has at most 100 runs, each of fewer chunks than 16 bits count, and ends within
      32 bits. */
  ghost predicate Programmable(file: seq<byte>, chunks: seq<Chunk>, startSector: nat)
  {
    && IsImage(file, chunks)
    && |Runs(chunks)| <= MAX_RUNS && RunsAreCounted(chunks) && startSector + 8 * Blocks(chunks) < TWO32
  }

  /** The tables a programmable image fills, and what is in them. */
  lemma ProgrammableFits(file: seq<byte>, chunks: seq<Chunk>, startSector: nat)
    requires Programmable(file, chunks, startSector)
    ensures Aligned(chunks) && FitsTable(chunks) && Aligned(Settled(chunks)) && Runs(Settled(chunks)) == Runs(chunks)
    ensures ImageCommands(chunks, startSector) == ReferenceCommands(Settled(chunks), startSector, FILE_HEADER_SIZE)
    ensures |Finished(ScanFrom(START, chunks)).data| == |Runs(chunks)| == |ImageCommands(chunks, startSector)|
    ensures |Finished(ScanFrom(START, chunks)).holes| + 1 >= |Runs(chunks)|
  {
    ImageIsAligned(file, FILE_HEADER_SIZE, chunks);
    hide Runs, ReferenceCommands, ScanFrom, Aligned, ChunksAt, Blocks, Commands, Fronted, RunsAreCounted;
    SettledKeeps(chunks);
    UnsparseByRuns(map[], startSector, FILE_HEADER_SIZE, Settled(chunks));
    SettledCommands(chunks, startSector);
    AsManyCommands(chunks, startSector);
  }

  lemma SettledKeeps(chunks: seq<Chunk>)
    requires Aligned(chunks)
    ensures Aligned(Settled(chunks)) && Runs(Settled(chunks)) == Runs(chunks)
    ensures Blocks(Settled(chunks)) == Blocks(chunks)
  {
    hide Runs, Aligned, Blocks, Fronted;
    if chunks != [] && chunks[0].Hole? {
      FrontedKeeps(chunks);
    }
  }

  lemma AsManyCommands(chunks: seq<Chunk>, startSector: nat)
    ensures |ImageCommands(chunks, startSector)| == |Finished(ScanFrom(START, chunks)).data|
  {
    hide ScanFrom, Commands;
    var f := Finished(ScanFrom(START, chunks));
    EnoughHoles(START, chunks);
    CommandsAsMany(f.data, f.holes, startSector, FILE_HEADER_SIZE);
  }

  lemma CommandsAsMany(data: seq<Totals>, holes: seq<Totals>, sector: nat, offset: nat)
    requires |holes| + 1 >= |data|
    ensures |Commands(data, holes, sector, offset)| == |data|
  {
    if data != [] {
      CommandsFollow(data, holes, sector, offset, 0);
    }
  }

  lemma {:induction false} ImageIsAligned(file: seq<byte>, pos: nat, chunks: seq<Chunk>)
    requires ChunksAt(file, pos, chunks)
    ensures Aligned(chunks)
    decreases |chunks|
  {
    if chunks != [] {
      ImageIsAligned(file, pos + ChunkSize(chunks[0]), chunks[1..]);
      assert forall i :: 0 < i < |chunks| ==> chunks[i] == chunks[1..][i - 1];
    }
  }

  /** What is sent for run i of a programmable image: chunks with its data, where its command says; nothing overflows
      32 bits. */
  lemma RunAnnounced(file: seq<byte>, chunks: seq<Chunk>, startSector: nat, i: nat)
    returns (c: Command, segment: seq<Chunk>)
    requires Programmable(file, chunks, startSector) && i < |Runs(chunks)|
    ensures |ImageCommands(chunks, startSector)| == |Runs(chunks)|
    ensures c == ImageCommands(chunks, startSector)[i] && AllData(segment) == AllData(Runs(chunks)[i])
    ensures c.startSector < TWO32 && c.fileOffset < TWO32
    ensures ChunksAt(file, c.fileOffset, segment) && c.bytes == Bytes(segment) && segment != [] && Aligned(segment)
    ensures SectorsOf(c.bytes) * SECTOR_SIZE == c.bytes == |AllData(segment)|
  {
    ProgrammableFits(file, chunks, startSector);
    hide Runs, ReferenceCommands, ScanFrom, ChunksAt, Blocks, ImageCommands, Aligned, Bytes, AllRaw, SectorsOf, AllData;
    hide FileSize, FitsTable, Fronted, RunsAreCounted;
    var run := Runs(chunks)[i];
    c := ImageCommands(chunks, startSector)[i];
    if chunks != [] && chunks[0].Hole? {
      segment := FrontedStands(file, chunks, startSector, FILE_HEADER_SIZE, i);
    } else {
      RunStandsInFile(file, chunks, startSector, FILE_HEADER_SIZE, i);
      segment := run;
    }
    ChunksInFile(file, c.fileOffset, segment);
    RunSectors(run);
    AllDataLength(segment);
  }

  /** What fh_process_program computes for run i from the table, in 32 bits, is its command. */
  lemma FieldsOfRun(file: seq<byte>, chunks: seq<Chunk>, startSector: nat, data: seq<Totals>, holes: seq<Totals>,
                    i: nat)
    requires Programmable(file, chunks, startSector) && i < |Runs(chunks)|
    requires data == Finished(ScanFrom(START, chunks)).data && holes == Finished(ScanFrom(START, chunks)).holes
    ensures |data| == |Runs(chunks)| == |ImageCommands(chunks, startSector)| && |holes| + 1 >= |data|
    ensures var commands := ImageCommands(chunks, startSector);
            && data[i].bytes == commands[i].bytes
            && (i == 0 ==> commands[0].startSector == startSector && commands[0].fileOffset == FILE_HEADER_SIZE)
            && (i > 0 ==> Follows(commands[i - 1], commands[i], data[i - 1], holes[i - 1]))
  {
    hide Programmable, Runs, ScanFrom, Finished, SectorsOf, ReferenceCommands, Aligned, FitsTable, Commands, Follows;
    hide Settled;
    ProgrammableFits(file, chunks, startSector);
    var c, _ := RunAnnounced(file, chunks, startSector, i);
    CommandsFollow(data, holes, startSector, FILE_HEADER_SIZE, i);
    assert ImageCommands(chunks, startSector) == Commands(data, holes, startSector, FILE_HEADER_SIZE);
    if i > 0 {
      CommandsFollow(data, holes, startSector, FILE_HEADER_SIZE, i - 1);
      FollowsIf(Commands(data, holes, startSector, FILE_HEADER_SIZE)[i - 1], c, data[i - 1], holes[i - 1]);
    }
  }

  /** The command after c is computed from it in 32 bits. */
  ghost predicate Follows(c: Command, next: Command, data: Totals, holes: Totals)
  {
    && next.startSector == U32(c.startSector + SectorsOf(c.bytes) + holes.blocks * 8)
    && next.fileOffset
       == U32(c.fileOffset + (data.bytes + data.count * CHUNK_HEADER_SIZE + holes.count * CHUNK_HEADER_SIZE))
  }

  lemma FollowsIf(c: Command, next: Command, data: Totals, holes: Totals)
    requires next.startSector == c.startSector + SectorsOf(c.bytes) + 8 * holes.blocks < TWO32
    requires next.fileOffset == c.fileOffset + data.bytes + CHUNK_HEADER_SIZE * (data.count + holes.count) < TWO32
    ensures Follows(c, next, data, holes)
  {
    hide SectorsOf;
  }

  /** The sparse branch of fh_process_program, every command being acknowledged: the data of every run goes to the
      sector its command in ImageCommands says. After it, whatever the device held, it holds what un-sparsing the image
      at the entry's start sector would have written; of an image that starts with holes, what un-sparsing it with every
      run in front of its holes would have. */
  method ProgramSparse(cmd: ProgramCmd, img: SparseImg, file: seq<byte>, payload: nat, ghost chunks: seq<Chunk>)
    returns (transfers: seq<Transfer>)
    requires img.Valid() && cmd.sectorSize == SECTOR_SIZE && payload > 0 && Whole(payload, SECTOR_SIZE)
    requires Programmable(file, chunks, cmd.startSector)
    modifies cmd, img, img.data, img.holes
    ensures |transfers| == |Runs(chunks)|
    ensures CarriesRuns(transfers, ImageCommands(chunks, old(cmd.startSector)), Runs(chunks))
    ensures forall i :: 0 <= i < |transfers| ==> AtMost(transfers[i].pieces, payload)
    ensures forall dev: Device :: Program(dev, transfers) == Unsparse(dev, old(cmd.startSector), Settled(chunks))
  {
    hide ScanFrom, Finished, ImageCommands, Programmable, Runs, ReferenceCommands, ChunksAt, Whole, FitsTable;
    hide SectorsOf;
    hide AllRaw, Aligned, Bytes, WholeSectors, AllData, Join, AtMost, Program, Unsparse, U32, WriteRuns, Settled;
    ghost var startSector := cmd.startSector;
    ghost var commands := ImageCommands(chunks, startSector);
    ghost var f := Finished(ScanFrom(START, chunks));
    ProgrammableFits(file, chunks, startSector);
    img.ProcessSparseProgram(file, chunks) by {
      ImageIsImage(file, chunks, startSector);
    }
    transfers := [];
    var i: nat := 0;
    while i < img.totalCount
      invariant img.Valid() && img.Data() == f.data && img.Holes() == f.holes && img.firstOffset == FILE_HEADER_SIZE
      invariant i <= |commands| && i == |transfers|
      invariant i == 0 ==> cmd.startSector == startSector
      invariant i > 0 ==> cmd.startSector == commands[i - 1].startSector && cmd.fileOffset == commands[i - 1].fileOffset
      invariant i > 0 ==> cmd.numSectors == SectorsOf(commands[i - 1].bytes)
      invariant CarriesRuns(transfers, commands, Runs(chunks))
      invariant forall k :: 0 <= k < |transfers| ==> AtMost(transfers[k].pieces, payload)
    {
      FieldsOfRun(file, chunks, startSector, f.data, f.holes, i);
      ghost var c, run := RunAnnounced(file, chunks, startSector, i);
      if i == 0 {
        cmd.fileOffset := img.firstOffset;
      } else {
        assert f.data[i - 1] == img.data[i - 1] && f.holes[i - 1] == img.holes[i - 1];
        cmd.fileOffset := U32(cmd.fileOffset + (img.data[i - 1].bytes + img.data[i - 1].count * CHUNK_HEADER_SIZE
                                                + img.holes[i - 1].count * CHUNK_HEADER_SIZE));
        cmd.startSector := U32(cmd.startSector + cmd.numSectors + img.holes[i - 1].blocks * 8);
      }
      assert f.data[i] == img.data[i];
      cmd.unsparseSize := img.data[i].bytes;
      cmd.numSectors := cmd.unsparseSize / cmd.sectorSize + if cmd.unsparseSize % cmd.sectorSize != 0 then 1 else 0;
      SectorsOfIs(c.bytes);
      var pieces := SendRun(file, cmd.fileOffset, cmd.unsparseSize, payload, run);
      var t := Transfer(cmd.startSector, cmd.numSectors, pieces);
      OneMoreCarried(transfers, t, commands, Runs(chunks));
      transfers := transfers + [t];
      i := i + 1;
    }
    img.Clear();
    forall dev: Device
      ensures Program(dev, transfers) == Unsparse(dev, startSector, Settled(chunks))
    {
      ProgramWritesRuns(dev, transfers, commands, Runs(chunks));
      UnsparseByRuns(dev, startSector, FILE_HEADER_SIZE, Settled(chunks));
    }
  }

  lemma SectorsOfIs(bytes: nat)
    ensures SectorsOf(bytes) == bytes / SECTOR_SIZE + if bytes % SECTOR_SIZE != 0 then 1 else 0
  {
  }

  lemma ImageIsImage(file: seq<byte>, chunks: seq<Chunk>, startSector: nat)
    requires Programmable(file, chunks, startSector)
    ensures IsImage(file, chunks)
  {
  }

  lemma OneMoreCarried(transfers: seq<Transfer>, t: Transfer, commands: seq<Command>, runs: seq<seq<Chunk>>)
    requires |transfers| < |commands| == |runs| && CarriesRuns(transfers, commands, runs)
    requires Carries(t, commands[|transfers|], runs[|transfers|])
    ensures CarriesRuns(transfers + [t], commands, runs)
  {
    hide Carries;
  }
}
