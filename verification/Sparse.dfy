/** Programming a sparse image: the chunks of the file are gathered into runs, each run is announced with a
    program command and streamed, and the device ends up with what a plain un-sparser would write. */
module Sparse {
  import opened CTypes
  import opened LittleEndian
  import opened Sequences

  const BLOCK_SIZE: nat := 4096
  const SECTOR_SIZE: nat := 512
  const FILE_HEADER_SIZE: nat := 28
  const CHUNK_HEADER_SIZE: nat := 12
  const RAW: nat := 0xCAC1
  const DONT_CARE: nat := 0xCAC3

  datatype Chunk = Raw(data: seq<byte>) | Hole(blocks: nat)

  function DataOf(c: Chunk): seq<byte>
  {
    if c.Raw? then c.data else []
  }

  function BlocksOf(c: Chunk): nat
  {
    if c.Raw? then |c.data| / BLOCK_SIZE else c.blocks
  }

  function TypeOf(c: Chunk): nat
  {
    if c.Raw? then RAW else DONT_CARE
  }

  // ---------- The file ----------

  /** Bytes a list of chunks takes in the file. */
  function FileSize(chunks: seq<Chunk>): nat
  {
    if chunks == [] then 0 else ChunkSize(chunks[0]) + FileSize(chunks[1..])
  }

  function ChunkSize(c: Chunk): nat
  {
    CHUNK_HEADER_SIZE + |DataOf(c)|
  }

  /** The header and data of a chunk stand at position pos. */
  ghost predicate ChunkAt(file: seq<byte>, pos: nat, c: Chunk)
  {
    var body := pos + CHUNK_HEADER_SIZE;
    && body + |DataOf(c)| <= |file|
    && U16At(file, pos) == TypeOf(c)
    && U32At(file, pos + 4) == BlocksOf(c)
    && U32At(file, pos + 8) == ChunkSize(c)
    && file[body..body + |DataOf(c)|] == DataOf(c)
    && |DataOf(c)| % BLOCK_SIZE == 0
  }

  /** The chunks stand in the file from position pos on. */
  ghost predicate ChunksAt(file: seq<byte>, pos: nat, chunks: seq<Chunk>)
    decreases |chunks|
  {
    chunks != [] ==> ChunkAt(file, pos, chunks[0]) && ChunksAt(file, pos + ChunkSize(chunks[0]), chunks[1..])
  }

  /** A sparse image of the first revision of the format, with raw and don't-care chunks. */
  ghost predicate IsImage(file: seq<byte>, chunks: seq<Chunk>)
  {
    && FILE_HEADER_SIZE <= |file| < TWO32
    && U16At(file, 8) == FILE_HEADER_SIZE
    && U32At(file, 20) == |chunks| < TWO32
    && ChunksAt(file, FILE_HEADER_SIZE, chunks)
  }

  // A small image, byte by byte: 28 octets of header, a raw chunk of one block, and five blocks of nothing.

  const SMALL_HEADER: seq<byte> :=
    [0x3A, 0xFF, 0x26, 0xED, 1, 0, 0, 0, 28, 0, 12, 0, 0, 0x10] + [0, 0, 6, 0, 0, 0, 2, 0, 0, 0, 0, 0, 0, 0]

  const RAW_HEADER: seq<byte> := [0xC1, 0xCA, 0, 0, 1, 0, 0, 0, 0x0C, 0x10, 0, 0]

  const HOLE_HEADER: seq<byte> := [0xC3, 0xCA, 0, 0, 5, 0, 0, 0, 12, 0, 0, 0]

  lemma SmallImage(data: seq<byte>)
    requires |data| == 4096
    ensures IsImage(SMALL_HEADER + RAW_HEADER + data + HOLE_HEADER, [Raw(data), Hole(5)])
  {
    hide ChunkAt, SMALL_HEADER, RAW_HEADER, HOLE_HEADER, U16At, U32At;
    var chunks, file := [Raw(data), Hole(5)], SMALL_HEADER + RAW_HEADER + data + HOLE_HEADER;
    SmallHeaders();
    RawHeader(data);
    FrontIsHeader(SMALL_HEADER, RAW_HEADER + data + HOLE_HEADER);
    assert SMALL_HEADER + (RAW_HEADER + data + HOLE_HEADER) == file;
    ChunkStands(SMALL_HEADER, RAW_HEADER, data, HOLE_HEADER, Raw(data));
    ChunkStands(SMALL_HEADER + RAW_HEADER + data, HOLE_HEADER, [], [], Hole(5));
    assert file + [] + [] == file;
    assert chunks[1..] == [Hole(5)] && [Hole(5)][1..] == [];
    assert ChunkAt(file, 28, Raw(data)) && ChunkAt(file, 28 + ChunkSize(Raw(data)), Hole(5));
    assert ChunksAt(file, 28 + ChunkSize(Raw(data)), [Hole(5)]);
    assert ChunksAt(file, 28, chunks);
  }

  lemma SmallHeaders()
    ensures |SMALL_HEADER| == 28 && U16At(SMALL_HEADER, 8) == 28 && U32At(SMALL_HEADER, 20) == 2
    ensures |RAW_HEADER| == |HOLE_HEADER| == 12
    ensures U16At(HOLE_HEADER, 0) == TypeOf(Hole(5)) && U32At(HOLE_HEADER, 4) == 5 && U32At(HOLE_HEADER, 8) == 12
  {
  }

  lemma RawHeader(data: seq<byte>)
    requires |data| == 4096
    ensures U16At(RAW_HEADER, 0) == TypeOf(Raw(data)) && U32At(RAW_HEADER, 4) == BlocksOf(Raw(data))
    ensures U32At(RAW_HEADER, 8) == ChunkSize(Raw(data))
  {
  }

  lemma FrontIsHeader(header: seq<byte>, rest: seq<byte>)
    requires |header| >= 24
    ensures U16At(header + rest, 8) == U16At(header, 8) && U32At(header + rest, 20) == U32At(header, 20)
  {
  }

  lemma ChunkStands(before: seq<byte>, header: seq<byte>, data: seq<byte>, behind: seq<byte>, c: Chunk)
    requires |header| == 12 && data == DataOf(c) && |data| % BLOCK_SIZE == 0
    requires U16At(header, 0) == TypeOf(c) && U32At(header, 4) == BlocksOf(c) && U32At(header, 8) == ChunkSize(c)
    ensures ChunkAt(before + header + data + behind, |before|, c)
  {
    var file, n := before + header + data + behind, |before|;
    assert forall i :: 0 <= i < 12 ==> file[n + i] == header[i];
    assert file[n + 12..n + 12 + |data|] == data;
  }

  lemma {:induction false} ChunksAtConcat(file: seq<byte>, pos: nat, a: seq<Chunk>, b: seq<Chunk>)
    requires ChunksAt(file, pos, a + b)
    ensures ChunksAt(file, pos, a) && ChunksAt(file, pos + FileSize(a), b)
    decreases |a|
  {
    hide ChunkAt, ChunkSize;
    if a == [] {
      assert a + b == b;
    } else {
      assert (a + b)[0] == a[0] && (a + b)[1..] == a[1..] + b;
      ChunksAtConcat(file, pos + ChunkSize(a[0]), a[1..], b);
    }
  }

  lemma {:induction false} ChunksInFile(file: seq<byte>, pos: nat, chunks: seq<Chunk>)
    requires ChunksAt(file, pos, chunks) && chunks != []
    ensures pos + FileSize(chunks) <= |file|
    decreases |chunks|
  {
    if chunks[1..] != [] {
      ChunksInFile(file, pos + ChunkSize(chunks[0]), chunks[1..]);
    }
  }

  // ---------- Gathering chunks into runs ----------

  /** What the program keeps of a run: blocks in the output, bytes of data, number of chunks. */
  datatype Totals = Totals(blocks: nat, bytes: nat, count: nat)

  function Add(t: Totals, c: Chunk): Totals
  {
    Totals(t.blocks + BlocksOf(c), t.bytes + |DataOf(c)|, t.count + 1)
  }

  function TotalsFrom(t: Totals, chunks: seq<Chunk>): Totals
    decreases |chunks|
  {
    if chunks == [] then t else TotalsFrom(Add(t, chunks[0]), chunks[1..])
  }

  const NOTHING: Totals := Totals(0, 0, 0)

  function TotalsOf(chunks: seq<Chunk>): Totals
  {
    TotalsFrom(NOTHING, chunks)
  }

  /** The state of the scan: runs of data, runs of holes between them, and the run being gathered. */
  datatype Scan = Scan(data: seq<Totals>, holes: seq<Totals>, run: Totals, lastType: nat)

  function ScanStep(s: Scan, c: Chunk): Scan
  {
    match c
    case Raw(_) =>
      if s.lastType != RAW && s.lastType != 0 then Scan(s.data, s.holes + [s.run], Add(NOTHING, c), RAW)
      else if s.lastType == 0 then Scan(s.data, s.holes, Add(NOTHING, c), RAW)
      else Scan(s.data, s.holes, Add(s.run, c), RAW)
    case Hole(_) =>
      if s.lastType != DONT_CARE && s.lastType != 0 then Scan(s.data + [s.run], s.holes, Add(NOTHING, c), DONT_CARE)
      else Scan(s.data, s.holes, Add(s.run, c), DONT_CARE)
  }

  function ScanFrom(s: Scan, chunks: seq<Chunk>): Scan
    decreases |chunks|
  {
    if chunks == [] then s else ScanFrom(ScanStep(s, chunks[0]), chunks[1..])
  }

  const START: Scan := Scan([], [], NOTHING, 0)

  /** A run of data that ends the image is kept too; a run of holes that ends it is not. */
  function Finished(s: Scan): Scan
  {
    if s.lastType == RAW then s.(data := s.data + [s.run]) else s
  }

  /** A program command: where it goes on the device, where its run starts in the file, and its bytes. */
  datatype Command = Command(startSector: nat, fileOffset: nat, bytes: nat)

  function SectorsOf(bytes: nat): nat
  {
    bytes / SECTOR_SIZE + if bytes % SECTOR_SIZE != 0 then 1 else 0
  }

  /** The commands fh_process_program derives from the runs, each from the one before it. */
  function Commands(data: seq<Totals>, holes: seq<Totals>, startSector: nat, fileOffset: nat): seq<Command>
    requires |holes| + 1 >= |data|
  {
    if data == [] then []
    else
      [Command(startSector, fileOffset, data[0].bytes)]
      + if |data| == 1 then []
        else Commands(data[1..], holes[1..],
                      startSector + SectorsOf(data[0].bytes) + 8 * holes[0].blocks,
                      fileOffset + data[0].bytes + CHUNK_HEADER_SIZE * (data[0].count + holes[0].count))
  }

  // ---------- The reference: where every run of data belongs ----------

  function RawPrefix(chunks: seq<Chunk>): (n: nat)
    ensures n <= |chunks| && (chunks != [] && chunks[0].Raw? ==> n > 0)
    ensures n < |chunks| ==> chunks[n].Hole?
    ensures forall i :: 0 <= i < n ==> chunks[i].Raw?
  {
    if chunks == [] || chunks[0].Hole? then 0 else 1 + RawPrefix(chunks[1..])
  }

  function Blocks(chunks: seq<Chunk>): nat
  {
    if chunks == [] then 0 else BlocksOf(chunks[0]) + Blocks(chunks[1..])
  }

  function Bytes(chunks: seq<Chunk>): nat
  {
    if chunks == [] then 0 else |DataOf(chunks[0])| + Bytes(chunks[1..])
  }

  /** One command for every maximal run of raw chunks, at the sector of its first block and the file position of
      its first chunk. */
  function ReferenceCommands(chunks: seq<Chunk>, sector: nat, pos: nat): seq<Command>
    decreases |chunks|
  {
    if chunks == [] then []
    else if chunks[0].Hole? then
      ReferenceCommands(chunks[1..], sector + 8 * chunks[0].blocks, pos + ChunkSize(chunks[0]))
    else
      var n := RawPrefix(chunks);
      var run := chunks[..n];
      [Command(sector, pos, Bytes(run))]
      + ReferenceCommands(chunks[n..], sector + 8 * Blocks(run), pos + FileSize(run))
  }

  // ---------- The scan finds the reference commands ----------

  lemma {:induction false} TotalsFromAdds(t: Totals, chunks: seq<Chunk>)
    ensures TotalsFrom(t, chunks)
         == Totals(t.blocks + Blocks(chunks), t.bytes + Bytes(chunks), t.count + |chunks|)
    decreases |chunks|
  {
    if chunks != [] {
      TotalsFromAdds(Add(t, chunks[0]), chunks[1..]);
    }
  }

  lemma TotalsOfIs(chunks: seq<Chunk>)
    ensures TotalsOf(chunks) == Totals(Blocks(chunks), Bytes(chunks), |chunks|)
  {
    TotalsFromAdds(NOTHING, chunks);
  }

  lemma {:induction false} FileSizeIs(chunks: seq<Chunk>)
    ensures FileSize(chunks) == Bytes(chunks) + CHUNK_HEADER_SIZE * |chunks|
  {
    if chunks != [] {
      FileSizeIs(chunks[1..]);
    }
  }

  ghost predicate AllHoles(chunks: seq<Chunk>)
  {
    forall i :: 0 <= i < |chunks| ==> chunks[i].Hole?
  }

  ghost predicate AllRaw(chunks: seq<Chunk>)
  {
    forall i :: 0 <= i < |chunks| ==> chunks[i].Raw?
  }

  /** Scanning more chunks of the type being gathered only adds to the run. */
  lemma {:induction false} ScanSameType(s: Scan, same: seq<Chunk>, rest: seq<Chunk>)
    requires (s.lastType == RAW && AllRaw(same)) || (s.lastType == DONT_CARE && AllHoles(same))
    ensures ScanFrom(s, same + rest) == ScanFrom(s.(run := TotalsFrom(s.run, same)), rest)
    decreases |same|
  {
    if same == [] {
      assert same + rest == rest;
    } else {
      assert (same + rest)[0] == same[0] && (same + rest)[1..] == same[1..] + rest;
      assert ScanStep(s, same[0]) == s.(run := Add(s.run, same[0]));
      ScanSameType(ScanStep(s, same[0]), same[1..], rest);
    }
  }

  function HolePrefix(chunks: seq<Chunk>): (n: nat)
    ensures n <= |chunks| && (chunks != [] && chunks[0].Hole? ==> n > 0)
    ensures n < |chunks| ==> chunks[n].Raw?
    ensures forall i :: 0 <= i < n ==> chunks[i].Hole?
  {
    if chunks == [] || chunks[0].Raw? then 0 else 1 + HolePrefix(chunks[1..])
  }

  lemma {:induction false} ReferenceSkipsHoles(holes: seq<Chunk>, rest: seq<Chunk>, sector: nat, pos: nat,
                                               sector2: nat, pos2: nat)
    requires AllHoles(holes)
    requires sector2 == sector + 8 * Blocks(holes) && pos2 == pos + CHUNK_HEADER_SIZE * |holes|
    ensures ReferenceCommands(holes + rest, sector, pos) == ReferenceCommands(rest, sector2, pos2)
  {
    hide ReferenceCommands;
    if holes == [] {
      assert holes + rest == rest;
    } else {
      assert (holes + rest)[0] == holes[0] && (holes + rest)[1..] == holes[1..] + rest;
      ReferenceSkipsOne(holes + rest, sector, pos);
      ReferenceSkipsHoles(holes[1..], rest, sector + 8 * holes[0].blocks, pos + CHUNK_HEADER_SIZE, sector2, pos2);
    }
  }

  lemma ReferenceSkipsOne(chunks: seq<Chunk>, sector: nat, pos: nat)
    requires chunks != [] && chunks[0].Hole?
    ensures ReferenceCommands(chunks, sector, pos)
         == ReferenceCommands(chunks[1..], sector + 8 * chunks[0].blocks, pos + CHUNK_HEADER_SIZE)
  {
  }

  /** Raw data comes in whole blocks. */
  ghost predicate Aligned(chunks: seq<Chunk>)
  {
    forall i :: 0 <= i < |chunks| ==> |DataOf(chunks[i])| % BLOCK_SIZE == 0
  }

  lemma {:induction false} RunSectors(run: seq<Chunk>)
    requires Aligned(run) && AllRaw(run)
    ensures Bytes(run) == BLOCK_SIZE * Blocks(run) && SectorsOf(Bytes(run)) == 8 * Blocks(run)
  {
    if run != [] {
      RunSectors(run[1..]);
      assert |run[0].data| % BLOCK_SIZE == 0 by { assert |DataOf(run[0])| % BLOCK_SIZE == 0; }
    }
  }

  /** Scanning a run of data that starts here: the holes gathered so far are kept, the run becomes current. */
  lemma ScanRawRun(s: Scan, run: seq<Chunk>, rest: seq<Chunk>)
    requires AllRaw(run) && run != [] && s.lastType in {0, DONT_CARE}
    ensures ScanFrom(s, run + rest)
         == ScanFrom(Scan(s.data, if s.lastType == 0 then s.holes else s.holes + [s.run], TotalsOf(run), RAW), rest)
  {
    var s1 := ScanStep(s, run[0]);
    assert (run + rest)[0] == run[0] && (run + rest)[1..] == run[1..] + rest;
    assert s1.run == Add(NOTHING, run[0]);
    ScanSameType(s1, run[1..], rest);
  }

  lemma ScanHoleRun(s: Scan, holes: seq<Chunk>, rest: seq<Chunk>)
    requires AllHoles(holes) && holes != [] && s.lastType == RAW
    ensures ScanFrom(s, holes + rest)
         == ScanFrom(Scan(s.data + [s.run], s.holes, TotalsOf(holes), DONT_CARE), rest)
  {
    var s1 := ScanStep(s, holes[0]);
    assert (holes + rest)[0] == holes[0] && (holes + rest)[1..] == holes[1..] + rest;
    ScanSameType(s1, holes[1..], rest);
  }

  /** A list that starts with raw data: its first run, the holes behind it, and the rest. */
  lemma FirstRun(chunks: seq<Chunk>) returns (run: seq<Chunk>, gap: seq<Chunk>, rest: seq<Chunk>)
    requires Aligned(chunks) && chunks != [] && chunks[0].Raw?
    ensures chunks == run + (gap + rest) && run != [] && AllRaw(run) && AllHoles(gap)
    ensures Aligned(run) && Aligned(rest) && (rest != [] ==> gap != [] && rest[0].Raw?)
    ensures run == chunks[..RawPrefix(chunks)]
  {
    hide RawPrefix, HolePrefix, Aligned, AllRaw, AllHoles;
    var after;
    run, after := RawRun(chunks);
    gap, rest := HoleRun(after);
  }

  /** The holes in front of a list, and the rest. */
  lemma {:induction false} HoleRun(chunks: seq<Chunk>) returns (gap: seq<Chunk>, rest: seq<Chunk>)
    requires Aligned(chunks)
    ensures chunks == gap + rest && AllHoles(gap) && Aligned(rest) && (rest != [] ==> rest[0].Raw?)
    ensures chunks != [] && chunks[0].Hole? ==> gap != []
  {
    if chunks == [] || chunks[0].Raw? {
      gap, rest := [], chunks;
    } else {
      var c, tail := chunks[0], chunks[1..];
      assert chunks == [c] + tail;
      AlignedTail([c], tail);
      hide Aligned;
      gap, rest := HoleRun(tail);
      ConcatAssociates([c], gap, rest);
      gap := [c] + gap;
    }
  }

  /** The reference commands are this one and those of the rest, from there on. */
  ghost predicate StartsWith(chunks: seq<Chunk>, sector: nat, pos: nat, c: Command, rest: seq<Chunk>, sector2: nat,
                             pos2: nat)
  {
    ReferenceCommands(chunks, sector, pos) == [c] + ReferenceCommands(rest, sector2, pos2)
  }

  lemma ReferenceOfFirstRun(chunks: seq<Chunk>, run: seq<Chunk>, gap: seq<Chunk>, rest: seq<Chunk>, sector: nat,
                            pos: nat,
                            sector2: nat, pos2: nat)
    requires chunks == run + (gap + rest) && chunks != [] && chunks[0].Raw? && run == chunks[..RawPrefix(chunks)]
    requires AllRaw(run) && AllHoles(gap)
    requires sector2 == sector + 8 * Blocks(run) + 8 * Blocks(gap)
    requires pos2 == pos + FileSize(run) + CHUNK_HEADER_SIZE * |gap|
    ensures StartsWith(chunks, sector, pos, Command(sector, pos, Bytes(run)), rest, sector2, pos2)
  {
    hide Blocks, Bytes, FileSize, RawPrefix, ReferenceCommands, AllRaw, AllHoles;
    var mid, midPos := sector + 8 * Blocks(run), pos + FileSize(run);
    assert chunks[|run|..] == gap + rest;
    ReferenceUnfold(chunks, run, gap + rest, sector, pos, mid, midPos);
    ReferenceSkipsHoles(gap, rest, mid, midPos, sector2, pos2);
  }

  lemma ReferenceUnfold(chunks: seq<Chunk>, run: seq<Chunk>, after: seq<Chunk>, sector: nat, pos: nat,
                        sector2: nat, pos2: nat)
    requires chunks != [] && chunks[0].Raw? && run == chunks[..RawPrefix(chunks)] && after == chunks[|run|..]
    requires sector2 == sector + 8 * Blocks(run) && pos2 == pos + FileSize(run)
    ensures ReferenceCommands(chunks, sector, pos)
         == [Command(sector, pos, Bytes(run))] + ReferenceCommands(after, sector2, pos2)
  {
    hide Blocks, Bytes, FileSize, RawPrefix, ReferenceCommands;
    ReferenceBody(chunks, RawPrefix(chunks), run, after, sector, pos, sector2, pos2);
  }

  lemma ReferenceBody(chunks: seq<Chunk>, n: nat, run: seq<Chunk>, after: seq<Chunk>, sector: nat, pos: nat,
                      sector2: nat, pos2: nat)
    requires chunks != [] && chunks[0].Raw? && n == RawPrefix(chunks) && run == chunks[..n] && after == chunks[n..]
    requires sector2 == sector + 8 * Blocks(run) && pos2 == pos + FileSize(run)
    ensures ReferenceCommands(chunks, sector, pos)
         == [Command(sector, pos, Bytes(run))] + ReferenceCommands(after, sector2, pos2)
  {
    hide Blocks, Bytes, FileSize, RawPrefix;
  }

  /** The scan from state s adds these totals, and the commands that follow from them are the reference. */
  ghost predicate Meets(s: Scan, chunks: seq<Chunk>, sector: nat, pos: nat, data: seq<Totals>, holes: seq<Totals>)
  {
    var f := Finished(ScanFrom(s, chunks));
    && f.data == s.data + data && f.holes == HolesBefore(s) + holes
    && |data| >= 1 && |holes| + 1 == |data|
    && Commands(data, holes, sector, pos) == ReferenceCommands(chunks, sector, pos)
  }

  /** The runs of holes in front of a run of data that starts here. */
  function HolesBefore(s: Scan): seq<Totals>
  {
    if s.lastType == 0 then s.holes else s.holes + [s.run]
  }

  /** From a run of data on, the scan adds exactly the totals from which the commands come out as the reference. */
  lemma {:induction false} ScanMeetsReference(s: Scan, chunks: seq<Chunk>, sector: nat, pos: nat)
    returns (data: seq<Totals>, holes: seq<Totals>)
    requires Aligned(chunks) && chunks != [] && chunks[0].Raw? && s.lastType in {0, DONT_CARE}
    ensures Meets(s, chunks, sector, pos, data, holes)
    decreases |chunks|
  {
    hide Meets, StartsWith, AllHoles, AllRaw, Aligned, Blocks, FileSize, Bytes, RawPrefix, TotalsOf;
    var run, gap, rest := FirstRun(chunks);
    var sector2 := sector + 8 * Blocks(run) + 8 * Blocks(gap);
    var pos2 := pos + FileSize(run) + CHUNK_HEADER_SIZE * |gap|;
    ReferenceOfFirstRun(chunks, run, gap, rest, sector, pos, sector2, pos2);
    if rest == [] {
      LastRunMeets(s, chunks, run, gap, sector, pos, sector2, pos2);
      data, holes := [TotalsOf(run)], [];
    } else {
      var s2 := Scan(s.data + [TotalsOf(run)], HolesBefore(s), TotalsOf(gap), DONT_CARE);
      var data2, holes2 := ScanMeetsReference(s2, rest, sector2, pos2);
      RunMeets(s, chunks, run, gap, rest, sector, pos, sector2, pos2, data2, holes2);
      data, holes := [TotalsOf(run)] + data2, [TotalsOf(gap)] + holes2;
    }
  }

  lemma LastRunMeets(s: Scan, chunks: seq<Chunk>, run: seq<Chunk>, gap: seq<Chunk>, sector: nat, pos: nat,
                     sector2: nat, pos2: nat)
    requires s.lastType in {0, DONT_CARE} && chunks == run + (gap + []) && run != [] && AllRaw(run) && AllHoles(gap)
    requires StartsWith(chunks, sector, pos, Command(sector, pos, Bytes(run)), [], sector2, pos2)
    ensures Meets(s, chunks, sector, pos, [TotalsOf(run)], [])
  {
    hide TotalsFrom, TotalsOf, ScanStep, SectorsOf, ReferenceCommands, ScanFrom, RawPrefix, Blocks, Bytes, FileSize;
    hide AllHoles, AllRaw, Add, Finished;
    ScanRawRun(s, run, gap + []);
    TotalsOfIs(run);
    ScanEnds(Scan(s.data, HolesBefore(s), TotalsOf(run), RAW), gap);
    ReferenceEnds(sector2, pos2);
    assert gap + [] == gap;
  }

  lemma RunMeets(s: Scan, chunks: seq<Chunk>, run: seq<Chunk>, gap: seq<Chunk>, rest: seq<Chunk>, sector: nat, pos: nat,
                 sector2: nat, pos2: nat, data2: seq<Totals>, holes2: seq<Totals>)
    requires s.lastType in {0, DONT_CARE} && chunks == run + (gap + rest)
    requires run != [] && gap != [] && AllRaw(run) && AllHoles(gap) && Aligned(run)
    requires sector2 == sector + 8 * Blocks(run) + 8 * Blocks(gap)
    requires pos2 == pos + FileSize(run) + CHUNK_HEADER_SIZE * |gap|
    requires StartsWith(chunks, sector, pos, Command(sector, pos, Bytes(run)), rest, sector2, pos2)
    requires Meets(Scan(s.data + [TotalsOf(run)], HolesBefore(s), TotalsOf(gap), DONT_CARE), rest, sector2, pos2,
                   data2, holes2)
    ensures Meets(s, chunks, sector, pos, [TotalsOf(run)] + data2, [TotalsOf(gap)] + holes2)
  {
    hide TotalsFrom, TotalsOf, ScanStep, SectorsOf, ReferenceCommands, ScanFrom, RawPrefix, Blocks, Bytes, FileSize;
    hide Aligned, AllHoles, AllRaw, Add, Finished, Commands, HolesBefore;
    var s2 := Scan(s.data + [TotalsOf(run)], HolesBefore(s), TotalsOf(gap), DONT_CARE);
    hide Meets;
    MeetsParts(s2, rest, sector2, pos2, data2, holes2);
    HolesBeforeGap(s2);
    ScanRunAndGap(s, run, gap, rest);
    PlacesMatch(run, gap, sector, pos);
    CommandsFromTwo(TotalsOf(run), TotalsOf(gap), data2, holes2, sector, pos, sector2, pos2);
    ConcatAssociates(s.data, [TotalsOf(run)], data2);
    ConcatAssociates(HolesBefore(s), [TotalsOf(gap)], holes2);
    MeetsIf(s, chunks, sector, pos, [TotalsOf(run)] + data2, [TotalsOf(gap)] + holes2);
  }

  lemma MeetsParts(s: Scan, chunks: seq<Chunk>, sector: nat, pos: nat, data: seq<Totals>, holes: seq<Totals>)
    requires Meets(s, chunks, sector, pos, data, holes)
    ensures Finished(ScanFrom(s, chunks)).data == s.data + data
    ensures Finished(ScanFrom(s, chunks)).holes == HolesBefore(s) + holes
    ensures |data| >= 1 && |holes| + 1 == |data|
    ensures Commands(data, holes, sector, pos) == ReferenceCommands(chunks, sector, pos)
  {
    hide Finished, ScanFrom, HolesBefore, Commands, ReferenceCommands;
  }

  lemma MeetsIf(s: Scan, chunks: seq<Chunk>, sector: nat, pos: nat, data: seq<Totals>, holes: seq<Totals>)
    requires Finished(ScanFrom(s, chunks)).data == s.data + data
    requires Finished(ScanFrom(s, chunks)).holes == HolesBefore(s) + holes
    requires |data| >= 1 && |holes| + 1 == |data|
    requires Commands(data, holes, sector, pos) == ReferenceCommands(chunks, sector, pos)
    ensures Meets(s, chunks, sector, pos, data, holes)
  {
    hide Finished, ScanFrom, HolesBefore, Commands, ReferenceCommands;
  }

  lemma HolesBeforeGap(s: Scan)
    ensures s.lastType == DONT_CARE ==> HolesBefore(s) == s.holes + [s.run]
  {
  }

  lemma ScanRunAndGap(s: Scan, run: seq<Chunk>, gap: seq<Chunk>, rest: seq<Chunk>)
    requires s.lastType in {0, DONT_CARE} && run != [] && gap != [] && AllRaw(run) && AllHoles(gap)
    ensures ScanFrom(s, run + (gap + rest))
         == ScanFrom(Scan(s.data + [TotalsOf(run)], HolesBefore(s), TotalsOf(gap), DONT_CARE), rest)
  {
    hide TotalsFrom, TotalsOf, ScanStep, ScanFrom, AllHoles, AllRaw;
    ScanRawRun(s, run, gap + rest);
    ScanHoleRun(Scan(s.data, HolesBefore(s), TotalsOf(run), RAW), gap, rest);
  }

  /** Where the next run belongs, by blocks and by what the program adds up. */
  lemma PlacesMatch(run: seq<Chunk>, gap: seq<Chunk>, sector: nat, pos: nat)
    requires AllRaw(run) && Aligned(run)
    ensures TotalsOf(run).bytes == Bytes(run)
    ensures sector + SectorsOf(TotalsOf(run).bytes) + 8 * TotalsOf(gap).blocks
         == sector + 8 * Blocks(run) + 8 * Blocks(gap)
    ensures pos + TotalsOf(run).bytes + CHUNK_HEADER_SIZE * (TotalsOf(run).count + TotalsOf(gap).count)
         == pos + FileSize(run) + CHUNK_HEADER_SIZE * |gap|
  {
    hide TotalsOf, SectorsOf, Blocks, Bytes, FileSize, AllRaw, Aligned;
    TotalsOfIs(run);
    TotalsOfIs(gap);
    FileSizeIs(run);
    RunSectors(run);
  }

  lemma CommandsFromTwo(run: Totals, gap: Totals, data: seq<Totals>, holes: seq<Totals>, sector: nat, pos: nat,
                        sector2: nat, pos2: nat)
    requires |data| >= 1 && |holes| + 1 >= |data|
    requires sector2 == sector + SectorsOf(run.bytes) + 8 * gap.blocks
    requires pos2 == pos + run.bytes + CHUNK_HEADER_SIZE * (run.count + gap.count)
    ensures Commands([run] + data, [gap] + holes, sector, pos)
         == [Command(sector, pos, run.bytes)] + Commands(data, holes, sector2, pos2)
  {
    hide SectorsOf, Commands;
    var all, gaps := [run] + data, [gap] + holes;
    assert all[0] == run && gaps[0] == gap && all[1..] == data && gaps[1..] == holes;
    CommandsUnfold(all, gaps, sector, pos);
  }

  lemma CommandsUnfold(data: seq<Totals>, holes: seq<Totals>, sector: nat, pos: nat)
    requires |data| > 1 && |holes| + 1 >= |data|
    ensures Commands(data, holes, sector, pos)
         == [Command(sector, pos, data[0].bytes)]
            + Commands(data[1..], holes[1..], sector + SectorsOf(data[0].bytes) + 8 * holes[0].blocks,
                       pos + data[0].bytes + CHUNK_HEADER_SIZE * (data[0].count + holes[0].count))
  {
    hide SectorsOf;
  }

  lemma ScanEnds(s: Scan, gap: seq<Chunk>)
    requires s.lastType == RAW && AllHoles(gap)
    ensures var f := Finished(ScanFrom(s, gap)); f.data == s.data + [s.run] && f.holes == s.holes
  {
    if gap != [] {
      ScanHoleRun(s, gap, []);
      assert gap + [] == gap;
    }
  }

  lemma ReferenceEnds(sector: nat, pos: nat)
    ensures ReferenceCommands([], sector, pos) == []
  {
  }

  /** The commands of an image, from a fresh scan. */
  function ImageCommands(chunks: seq<Chunk>, startSector: nat): seq<Command>
  {
    var f := Finished(ScanFrom(START, chunks));
    EnoughHoles(START, chunks);
    Commands(f.data, f.holes, startSector, FILE_HEADER_SIZE)
  }

  /** Every run of data but the first has a run of holes in front of it. */
  lemma {:induction false} EnoughHoles(s: Scan, chunks: seq<Chunk>)
    requires s.lastType in {0, RAW, DONT_CARE}
    requires |s.holes| + (if s.lastType == DONT_CARE then 1 else 0) >= |s.data|
    ensures |Finished(ScanFrom(s, chunks)).holes| + 1 >= |Finished(ScanFrom(s, chunks)).data|
    decreases |chunks|
  {
    if chunks != [] {
      EnoughHoles(ScanStep(s, chunks[0]), chunks[1..]);
    }
  }

  /** An image that starts with raw data is programmed by the reference commands. */
  lemma RawFirstMeetsReference(chunks: seq<Chunk>, startSector: nat)
    requires Aligned(chunks) && chunks != [] && chunks[0].Raw?
    ensures ImageCommands(chunks, startSector) == ReferenceCommands(chunks, startSector, FILE_HEADER_SIZE)
  {
    hide ScanFrom, ReferenceCommands, Commands, Aligned;
    var data, holes := ScanMeetsReference(START, chunks, startSector, FILE_HEADER_SIZE);
    assert START.data + data == data && START.holes + holes == holes;
  }

  /** The sectors at which commands start. */
  function Starts(commands: seq<Command>): seq<nat>
  {
    seq(|commands|, i requires 0 <= i < |commands| => commands[i].startSector)
  }

  /** An image that starts with holes is programmed as if they were not there: for images whose holes are not
      empty, every command starts at the sector where its run belongs exactly when the image starts with raw
      data or has none. */
  lemma StartsRightIffRawFirst(chunks: seq<Chunk>, startSector: nat)
    requires Aligned(chunks) && forall i :: 0 <= i < |chunks| && chunks[i].Hole? ==> chunks[i].blocks > 0
    ensures Starts(ImageCommands(chunks, startSector))
         == Starts(ReferenceCommands(chunks, startSector, FILE_HEADER_SIZE))
       <==> AllHoles(chunks) || chunks[0].Raw?
  {
    hide ImageCommands, ReferenceCommands, Starts, Aligned, AllHoles;
    if chunks != [] && chunks[0].Raw? {
      RawFirstMeetsReference(chunks, startSector);
    } else {
      var gap, rest := LeadingHoles(chunks);
      if rest == [] {
        assert gap == chunks;
        NoRuns(chunks, startSector);
      } else {
        FirstRunMisplaced(gap, rest, startSector);
      }
    }
  }

  lemma LeadingHoles(chunks: seq<Chunk>) returns (gap: seq<Chunk>, rest: seq<Chunk>)
    requires Aligned(chunks) && forall i :: 0 <= i < |chunks| && chunks[i].Hole? ==> chunks[i].blocks > 0
    requires chunks == [] || chunks[0].Hole?
    ensures chunks == gap + rest && Aligned(rest)
    ensures forall i :: 0 <= i < |gap| ==> gap[i].Hole? && gap[i].blocks > 0
    ensures rest == [] ==> AllHoles(chunks)
    ensures rest != [] ==> gap != [] && rest[0].Raw? && !AllHoles(chunks)
  {
    hide HolePrefix;
    var m := HolePrefix(chunks);
    gap, rest := chunks[..m], chunks[m..];
    assert forall i :: 0 <= i < |rest| ==> rest[i] == chunks[m + i];
    if rest != [] {
      assert chunks[m] == rest[0];
    }
  }

  lemma FirstRunMisplaced(gap: seq<Chunk>, rest: seq<Chunk>, startSector: nat)
    requires gap != [] && forall i :: 0 <= i < |gap| ==> gap[i].Hole? && gap[i].blocks > 0
    requires Aligned(rest) && rest != [] && rest[0].Raw?
    ensures Starts(ImageCommands(gap + rest, startSector))
         != Starts(ReferenceCommands(gap + rest, startSector, FILE_HEADER_SIZE))
  {
    hide ScanFrom, ReferenceCommands, ScanStep, Commands, TotalsOf, Blocks;
    var at, pos := startSector + 8 * Blocks(gap), FILE_HEADER_SIZE + CHUNK_HEADER_SIZE * |gap|;
    var s := Scan([], [], TotalsOf(gap), DONT_CARE);
    ScanLeadingHoles(gap, rest);
    ReferenceSkipsHoles(gap, rest, startSector, FILE_HEADER_SIZE, at, pos);
    var data, holes := ScanMeetsReference(s, rest, at, pos);
    FirstCommand(gap + rest, startSector, data);
    FirstReference(rest, at, pos);
    HolesTakeRoom(gap);
    assert Starts(ImageCommands(gap + rest, startSector))[0] == startSector;
    assert Starts(ReferenceCommands(rest, at, pos))[0] == at;
  }

  lemma ScanLeadingHoles(gap: seq<Chunk>, rest: seq<Chunk>)
    requires AllHoles(gap)
    ensures ScanFrom(START, gap + rest)
         == ScanFrom(Scan([], [], TotalsOf(gap), if gap == [] then 0 else DONT_CARE), rest)
  {
    if gap == [] {
      assert gap + rest == rest;
    } else {
      assert (gap + rest)[0] == gap[0] && (gap + rest)[1..] == gap[1..] + rest;
      ScanSameType(ScanStep(START, gap[0]), gap[1..], rest);
    }
  }

  lemma NoRuns(gap: seq<Chunk>, startSector: nat)
    requires AllHoles(gap)
    ensures ImageCommands(gap, startSector) == [] && ReferenceCommands(gap, startSector, FILE_HEADER_SIZE) == []
  {
    assert gap + [] == gap;
    ScanLeadingHoles(gap, []);
    ReferenceSkipsHoles(gap, [], startSector, FILE_HEADER_SIZE, startSector + 8 * Blocks(gap),
                        FILE_HEADER_SIZE + CHUNK_HEADER_SIZE * |gap|);
  }

  lemma FirstCommand(chunks: seq<Chunk>, startSector: nat, data: seq<Totals>)
    requires Finished(ScanFrom(START, chunks)).data == data && |data| >= 1
    ensures |ImageCommands(chunks, startSector)| >= 1
    ensures ImageCommands(chunks, startSector)[0].startSector == startSector
  {
    hide ScanFrom;
  }

  lemma FirstReference(chunks: seq<Chunk>, sector: nat, pos: nat)
    requires chunks != [] && chunks[0].Raw?
    ensures |ReferenceCommands(chunks, sector, pos)| >= 1
    ensures ReferenceCommands(chunks, sector, pos)[0].startSector == sector
  {
  }

  lemma HolesTakeRoom(gap: seq<Chunk>)
    requires forall i :: 0 <= i < |gap| ==> gap[i].Hole? && gap[i].blocks > 0
    ensures gap != [] ==> Blocks(gap) > 0
  {
  }

  // ---------- The device and the reference un-sparser ----------

  type Device = map<nat, seq<byte>>

  /** The part of bytes that goes to sector s when they are written from sector start on. */
  function SectorPart(bytes: seq<byte>, start: nat, s: nat): seq<byte>
    requires start <= s < start + |bytes| / SECTOR_SIZE
  {
    bytes[SECTOR_SIZE * (s - start)..SECTOR_SIZE * (s - start) + SECTOR_SIZE]
  }

  ghost function WriteSectors(dev: Device, start: nat, bytes: seq<byte>): Device
  {
    dev + map s: nat | start <= s < start + |bytes| / SECTOR_SIZE :: SectorPart(bytes, start, s)
  }

  /** The un-sparser: raw chunks are written where they stand in the output, holes are skipped. */
  ghost function Unsparse(dev: Device, sector: nat, chunks: seq<Chunk>): Device
    decreases |chunks|
  {
    if chunks == [] then dev
    else Unsparse(WriteSectors(dev, sector, DataOf(chunks[0])), sector + 8 * BlocksOf(chunks[0]), chunks[1..])
  }

  /** The sector at which chunk i belongs. */
  function PlaceOf(chunks: seq<Chunk>, sector: nat, i: nat): nat
    requires i <= |chunks|
  {
    sector + 8 * Blocks(chunks[..i])
  }

  lemma PlaceOfNext(chunks: seq<Chunk>, sector: nat, i: nat)
    requires 0 < i <= |chunks|
    ensures PlaceOf(chunks, sector, i) == PlaceOf(chunks[1..], sector + 8 * BlocksOf(chunks[0]), i - 1)
  {
    assert chunks[..i][1..] == chunks[1..][..i - 1];
  }

  ghost predicate SameAt(a: Device, b: Device, s: nat)
  {
    (s in a <==> s in b) && (s in a ==> a[s] == b[s])
  }

  /** A chunk writes its own sectors. */
  lemma ChunkWrites(dev: Device, sector: nat, c: Chunk, s: nat)
    requires |DataOf(c)| % BLOCK_SIZE == 0
    ensures var after := WriteSectors(dev, sector, DataOf(c));
            if c.Raw? && sector <= s < sector + 8 * BlocksOf(c)
            then s < sector + |c.data| / SECTOR_SIZE && s in after && after[s] == SectorPart(c.data, sector, s)
            else SameAt(after, dev, s)
  {
    hide WriteSectors, SectorPart;
    StoredAt(dev, sector, DataOf(c), s);
    BlocksToSectors(|DataOf(c)|);
  }

  lemma {:induction false} UnsparseBelow(dev: Device, sector: nat, chunks: seq<Chunk>, s: nat)
    requires Aligned(chunks) && s < sector
    ensures SameAt(Unsparse(dev, sector, chunks), dev, s)
    decreases |chunks|
  {
    hide WriteSectors, SectorPart;
    if chunks != [] {
      ChunkWrites(dev, sector, chunks[0], s);
      UnsparseBelow(WriteSectors(dev, sector, DataOf(chunks[0])), sector + 8 * BlocksOf(chunks[0]), chunks[1..], s);
    }
  }

  /** The un-sparser stores every raw chunk where it belongs. */
  lemma {:induction false} UnsparseStores(dev: Device, sector: nat, chunks: seq<Chunk>, i: nat, s: nat)
    requires Aligned(chunks) && i < |chunks| && chunks[i].Raw?
    requires PlaceOf(chunks, sector, i) <= s < PlaceOf(chunks, sector, i) + 8 * BlocksOf(chunks[i])
    ensures s < PlaceOf(chunks, sector, i) + |chunks[i].data| / SECTOR_SIZE
    ensures s in Unsparse(dev, sector, chunks)
    ensures Unsparse(dev, sector, chunks)[s] == SectorPart(chunks[i].data, PlaceOf(chunks, sector, i), s)
    decreases |chunks|
  {
    hide WriteSectors, SectorPart;
    var c, next := chunks[0], WriteSectors(dev, sector, DataOf(chunks[0]));
    if i == 0 {
      ChunkWrites(dev, sector, c, s);
      UnsparseBelow(next, sector + 8 * BlocksOf(c), chunks[1..], s);
    } else {
      PlaceOfNext(chunks, sector, i);
      UnsparseStores(next, sector + 8 * BlocksOf(c), chunks[1..], i - 1, s);
    }
  }

  /** The un-sparser leaves every other sector as it was. */
  lemma {:induction false} UnsparseKeeps(dev: Device, sector: nat, chunks: seq<Chunk>, s: nat)
    requires Aligned(chunks)
    requires forall i :: 0 <= i < |chunks| && chunks[i].Raw? ==>
               !(PlaceOf(chunks, sector, i) <= s < PlaceOf(chunks, sector, i) + 8 * BlocksOf(chunks[i]))
    ensures SameAt(Unsparse(dev, sector, chunks), dev, s)
    decreases |chunks|
  {
    hide WriteSectors, SectorPart, PlaceOf;
    if chunks != [] {
      var c, rest := chunks[0], chunks[1..];
      assert PlaceOf(chunks, sector, 0) == sector by {
        PlaceOfFirst(chunks, sector);
      }
      ChunkWrites(dev, sector, c, s);
      forall i | 0 <= i < |rest| && rest[i].Raw?
        ensures !(PlaceOf(rest, sector + 8 * BlocksOf(c), i) <= s
                  < PlaceOf(rest, sector + 8 * BlocksOf(c), i) + 8 * BlocksOf(rest[i]))
      {
        PlaceOfNext(chunks, sector, i + 1);
        assert chunks[i + 1] == rest[i];
      }
      UnsparseKeeps(WriteSectors(dev, sector, DataOf(c)), sector + 8 * BlocksOf(c), rest, s);
    }
  }

  lemma PlaceOfFirst(chunks: seq<Chunk>, sector: nat)
    ensures PlaceOf(chunks, sector, 0) == sector
  {
  }

  /** What the host sends for one command: the announcement, then pieces of data. */
  datatype Transfer = Transfer(startSector: nat, sectors: nat, pieces: seq<seq<byte>>)

  /** The device stores the pieces one behind the other. */
  ghost function Receive(dev: Device, at: nat, pieces: seq<seq<byte>>): Device
    decreases |pieces|
  {
    if pieces == [] then dev
    else Receive(WriteSectors(dev, at, pieces[0]), at + |pieces[0]| / SECTOR_SIZE, pieces[1..])
  }

  ghost function Program(dev: Device, transfers: seq<Transfer>): Device
    decreases |transfers|
  {
    if transfers == [] then dev
    else Program(Receive(dev, transfers[0].startSector, transfers[0].pieces), transfers[1..])
  }

  ghost predicate WholeSectors(pieces: seq<seq<byte>>)
  {
    forall i :: 0 <= i < |pieces| ==> |pieces[i]| % SECTOR_SIZE == 0
  }

  lemma PartOfFirst(a: seq<byte>, b: seq<byte>, start: nat, s: nat)
    requires |a| % SECTOR_SIZE == 0 && start <= s < start + |a| / SECTOR_SIZE
    ensures s < start + |a + b| / SECTOR_SIZE
    ensures SectorPart(a + b, start, s) == SectorPart(a, start, s)
  {
  }

  lemma PartOfSecond(a: seq<byte>, b: seq<byte>, start: nat, s: nat)
    requires |a| % SECTOR_SIZE == 0
    requires start + |a| / SECTOR_SIZE <= s < start + |a| / SECTOR_SIZE + |b| / SECTOR_SIZE
    ensures s < start + |a + b| / SECTOR_SIZE
    ensures SectorPart(a + b, start, s) == SectorPart(b, start + |a| / SECTOR_SIZE, s)
  {
    var n := |a| / SECTOR_SIZE;
    assert SECTOR_SIZE * (s - start) == |a| + SECTOR_SIZE * (s - start - n);
  }

  /** What is stored at sector s after a write. */
  lemma StoredAt(dev: Device, start: nat, bytes: seq<byte>, s: nat)
    ensures var here := start <= s < start + |bytes| / SECTOR_SIZE;
            && (s in WriteSectors(dev, start, bytes) <==> here || s in dev)
            && (here ==> WriteSectors(dev, start, bytes)[s] == SectorPart(bytes, start, s))
            && (!here && s in dev ==> WriteSectors(dev, start, bytes)[s] == dev[s])
  {
    hide SectorPart;
  }

  lemma WriteInTwo(dev: Device, start: nat, a: seq<byte>, b: seq<byte>, next: nat)
    requires |a| % SECTOR_SIZE == 0 && next == start + |a| / SECTOR_SIZE
    ensures WriteSectors(dev, start, a + b) == WriteSectors(WriteSectors(dev, start, a), next, b)
  {
    hide WriteSectors, SectorPart;
    var n := |a| / SECTOR_SIZE;
    SectorsAdd(a, b);
    var first := WriteSectors(dev, start, a);
    var all, two := WriteSectors(dev, start, a + b), WriteSectors(first, next, b);
    forall s: nat
      ensures s in all <==> s in two
      ensures s in all ==> all[s] == two[s]
    {
      StoredAt(dev, start, a + b, s);
      StoredAt(dev, start, a, s);
      StoredAt(first, next, b, s);
      if start <= s < start + n {
        PartOfFirst(a, b, start, s);
      } else if start + n <= s < start + n + |b| / SECTOR_SIZE {
        PartOfSecond(a, b, start, s);
      }
    }
  }

  lemma SectorsAdd(a: seq<byte>, b: seq<byte>)
    requires |a| % SECTOR_SIZE == 0
    ensures |a + b| / SECTOR_SIZE == |a| / SECTOR_SIZE + |b| / SECTOR_SIZE
  {
  }

  lemma WriteNothing(dev: Device, start: nat)
    ensures WriteSectors(dev, start, []) == dev
  {
  }

  /** However the data is cut into pieces of whole sectors, the device stores the whole. */
  lemma {:induction false} ReceiveIsWrite(dev: Device, at: nat, pieces: seq<seq<byte>>)
    requires WholeSectors(pieces)
    ensures Receive(dev, at, pieces) == WriteSectors(dev, at, Join(pieces))
    decreases |pieces|
  {
    hide WriteSectors;
    if pieces == [] {
      WriteNothing(dev, at);
    } else {
      WriteInTwo(dev, at, pieces[0], Join(pieces[1..]), at + |pieces[0]| / SECTOR_SIZE);
      ReceiveIsWrite(WriteSectors(dev, at, pieces[0]), at + |pieces[0]| / SECTOR_SIZE, pieces[1..]);
    }
  }

  function AllData(chunks: seq<Chunk>): seq<byte>
  {
    if chunks == [] then [] else DataOf(chunks[0]) + AllData(chunks[1..])
  }

  lemma {:induction false} AllDataLength(chunks: seq<Chunk>)
    ensures |AllData(chunks)| == Bytes(chunks)
  {
    if chunks != [] {
      AllDataLength(chunks[1..]);
    }
  }

  /** The maximal runs of raw chunks, in order. */
  function Runs(chunks: seq<Chunk>): seq<seq<Chunk>>
    decreases |chunks|
  {
    if chunks == [] then []
    else if chunks[0].Hole? then Runs(chunks[1..])
    else [chunks[..RawPrefix(chunks)]] + Runs(chunks[RawPrefix(chunks)..])
  }

  /** Un-sparsing a run of raw chunks writes their data as one. */
  lemma {:induction false} UnsparseRun(dev: Device, sector: nat, run: seq<Chunk>, rest: seq<Chunk>, sector2: nat)
    requires Aligned(run) && AllRaw(run) && sector2 == sector + 8 * Blocks(run)
    ensures Unsparse(dev, sector, run + rest) == Unsparse(WriteSectors(dev, sector, AllData(run)), sector2, rest)
    decreases |run|
  {
    hide WriteSectors;
    if run == [] {
      assert run + rest == rest;
      WriteNothing(dev, sector);
    } else {
      hide Unsparse, AllData, Blocks, BlocksOf, DataOf;
      var c := run[0];
      var first := WriteSectors(dev, sector, DataOf(c));
      assert (run + rest)[0] == c && (run + rest)[1..] == run[1..] + rest;
      var next := sector + 8 * BlocksOf(c);
      UnsparseOne(dev, sector, run + rest, next);
      RawChunk(run);
      UnsparseRun(first, next, run[1..], rest, sector2);
      WriteInTwo(dev, sector, DataOf(c), AllData(run[1..]), next);
    }
  }

  lemma UnsparseOne(dev: Device, sector: nat, chunks: seq<Chunk>, next: nat)
    requires chunks != [] && next == sector + 8 * BlocksOf(chunks[0])
    ensures Unsparse(dev, sector, chunks) == Unsparse(WriteSectors(dev, sector, DataOf(chunks[0])), next, chunks[1..])
  {
    hide WriteSectors;
  }

  lemma RawChunk(run: seq<Chunk>)
    requires Aligned(run) && AllRaw(run) && run != []
    ensures |DataOf(run[0])| % SECTOR_SIZE == 0 && |DataOf(run[0])| / SECTOR_SIZE == 8 * BlocksOf(run[0])
    ensures AllData(run) == DataOf(run[0]) + AllData(run[1..]) && Blocks(run) == BlocksOf(run[0]) + Blocks(run[1..])
  {
    assert |DataOf(run[0])| % BLOCK_SIZE == 0;
    BlocksToSectors(|DataOf(run[0])|);
  }

  lemma BlocksToSectors(n: nat)
    requires n % BLOCK_SIZE == 0
    ensures n % SECTOR_SIZE == 0 && n / SECTOR_SIZE == 8 * (n / BLOCK_SIZE)
  {
  }

  ghost function WriteRuns(dev: Device, commands: seq<Command>, runs: seq<seq<Chunk>>): Device
    requires |commands| == |runs|
    decreases |runs|
  {
    if runs == [] then dev
    else WriteRuns(WriteSectors(dev, commands[0].startSector, AllData(runs[0])), commands[1..], runs[1..])
  }

  lemma WriteFirstRun(dev: Device, c: Command, commands: seq<Command>, run: seq<Chunk>, runs: seq<seq<Chunk>>)
    requires |commands| == |runs|
    ensures WriteRuns(dev, [c] + commands, [run] + runs)
         == WriteRuns(WriteSectors(dev, c.startSector, AllData(run)), commands, runs)
  {
    hide WriteSectors, AllData;
    assert ([c] + commands)[1..] == commands && ([run] + runs)[1..] == runs;
  }

  lemma NothingToWrite(dev: Device, sector: nat, pos: nat)
    ensures ReferenceCommands([], sector, pos) == [] && Runs([]) == []
    ensures WriteRuns(dev, [], []) == dev && Unsparse(dev, sector, []) == dev
  {
  }

  lemma SkipHole(dev: Device, sector: nat, pos: nat, chunks: seq<Chunk>)
    requires Aligned(chunks) && chunks != [] && chunks[0].Hole?
    ensures Aligned(chunks[1..]) && Runs(chunks) == Runs(chunks[1..])
    ensures ReferenceCommands(chunks, sector, pos)
         == ReferenceCommands(chunks[1..], sector + 8 * chunks[0].blocks, pos + ChunkSize(chunks[0]))
    ensures Unsparse(dev, sector, chunks) == Unsparse(dev, sector + 8 * chunks[0].blocks, chunks[1..])
  {
    hide WriteSectors;
    WriteNothing(dev, sector);
  }

  /** Writing every run at the start of its reference command is un-sparsing. */
  lemma {:induction false} UnsparseByRuns(dev: Device, sector: nat, pos: nat, chunks: seq<Chunk>)
    requires Aligned(chunks)
    ensures |ReferenceCommands(chunks, sector, pos)| == |Runs(chunks)|
    ensures WriteRuns(dev, ReferenceCommands(chunks, sector, pos), Runs(chunks)) == Unsparse(dev, sector, chunks)
    decreases |chunks|
  {
    hide ReferenceCommands, Runs, Blocks, Bytes, FileSize, AllData, RawPrefix, Aligned, AllRaw, Unsparse, WriteRuns;
    hide WriteSectors;
    if chunks == [] {
      NothingToWrite(dev, sector, pos);
    } else if chunks[0].Hole? {
      SkipHole(dev, sector, pos, chunks);
      UnsparseByRuns(dev, sector + 8 * chunks[0].blocks, pos + ChunkSize(chunks[0]), chunks[1..]);
    } else {
      var run, rest := RawRun(chunks);
      var sector2, pos2 := sector + 8 * Blocks(run), pos + FileSize(run);
      AfterRun(chunks, run, rest, sector, pos, sector2, pos2);
      UnsparseRun(dev, sector, run, rest, sector2);
      UnsparseByRuns(WriteSectors(dev, sector, AllData(run)), sector2, pos2, rest);
      WriteFirstRun(dev, Command(sector, pos, Bytes(run)), ReferenceCommands(rest, sector2, pos2), run, Runs(rest));
    }
  }

  lemma RawRun(chunks: seq<Chunk>) returns (run: seq<Chunk>, rest: seq<Chunk>)
    requires Aligned(chunks) && chunks != [] && chunks[0].Raw?
    ensures chunks == run + rest && run != [] && run == chunks[..RawPrefix(chunks)]
    ensures AllRaw(run) && Aligned(run) && Aligned(rest) && (rest != [] ==> rest[0].Hole?)
  {
    hide RawPrefix;
    var n := RawPrefix(chunks);
    run, rest := chunks[..n], chunks[n..];
    assert forall i :: 0 <= i < |rest| ==> rest[i] == chunks[n + i];
  }

  lemma AfterRun(chunks: seq<Chunk>, run: seq<Chunk>, rest: seq<Chunk>, sector: nat, pos: nat, sector2: nat, pos2: nat)
    requires chunks == run + rest && chunks != [] && chunks[0].Raw? && run == chunks[..RawPrefix(chunks)]
    requires sector2 == sector + 8 * Blocks(run) && pos2 == pos + FileSize(run)
    ensures ReferenceCommands(chunks, sector, pos)
         == [Command(sector, pos, Bytes(run))] + ReferenceCommands(rest, sector2, pos2)
    ensures Runs(chunks) == [run] + Runs(rest)
  {
    hide Blocks, Bytes, FileSize, RawPrefix, ReferenceCommands, Runs;
    assert chunks[|run|..] == rest;
    ReferenceUnfold(chunks, run, rest, sector, pos, sector2, pos2);
    RunsUnfold(chunks, run, rest);
  }

  lemma RunsUnfold(chunks: seq<Chunk>, run: seq<Chunk>, rest: seq<Chunk>)
    requires chunks != [] && chunks[0].Raw? && run == chunks[..RawPrefix(chunks)] && rest == chunks[|run|..]
    ensures Runs(chunks) == [run] + Runs(rest)
  {
    hide RawPrefix;
  }

  lemma RunBounds(dev: Device, sector: nat, pos: nat, chunks: seq<Chunk>)
    requires Aligned(chunks) && Runs(chunks) != []
    ensures chunks != [] && (chunks[0].Hole? ==> Blocks(chunks) == chunks[0].blocks + Blocks(chunks[1..]))
    ensures |ReferenceCommands(chunks, sector, pos)| == |Runs(chunks)|
  {
    UnsparseByRuns(dev, sector, pos, chunks);
  }

  /** Run i stands in the file where its reference command says, and has the bytes it says. */
  lemma {:induction false} RunStandsInFile(file: seq<byte>, chunks: seq<Chunk>, sector: nat, pos: nat, i: nat)
    requires Aligned(chunks) && ChunksAt(file, pos, chunks) && i < |Runs(chunks)|
    ensures |ReferenceCommands(chunks, sector, pos)| == |Runs(chunks)|
    ensures var c, run := ReferenceCommands(chunks, sector, pos)[i], Runs(chunks)[i];
            && ChunksAt(file, c.fileOffset, run) && c.bytes == Bytes(run)
            && run != [] && AllRaw(run) && Aligned(run)
            && c.startSector + 8 * Blocks(run) <= sector + 8 * Blocks(chunks)
    decreases |chunks|
  {
    hide ChunkAt, ChunkSize, ReferenceCommands, Runs, Blocks, Bytes, FileSize, RawPrefix, Aligned, AllRaw;
    RunBounds(map[], sector, pos, chunks);
    if chunks[0].Hole? {
      SkipHole(map[], sector, pos, chunks);
      RunStandsInFile(file, chunks[1..], sector + 8 * chunks[0].blocks, pos + ChunkSize(chunks[0]), i);
    } else {
      hide ChunksAt;
      var run, rest := RawRun(chunks);
      var sector2, pos2 := sector + 8 * Blocks(run), pos + FileSize(run);
      AfterRun(chunks, run, rest, sector, pos, sector2, pos2);
      ChunksAtConcat(file, pos, run, rest);
      BlocksConcat(run, rest);
      if i > 0 {
        RunStandsInFile(file, rest, sector2, pos2, i - 1);
      }
    }
  }

  lemma {:induction false} BlocksConcat(a: seq<Chunk>, b: seq<Chunk>)
    ensures Blocks(a + b) == Blocks(a) + Blocks(b)
  {
    hide BlocksOf;
    if a == [] {
      assert a + b == b;
    } else {
      assert (a + b)[0] == a[0] && (a + b)[1..] == a[1..] + b;
      BlocksConcat(a[1..], b);
    }
  }

  // ---------- Images that start with holes ----------

  /** Every run of data changes places with the holes in front of it. */
  function Fronted(chunks: seq<Chunk>): seq<Chunk>
    decreases |chunks|
  {
    var g := HolePrefix(chunks);
    if g == |chunks| then chunks
    else
      var after := chunks[g..];
      var n := RawPrefix(after);
      after[..n] + (chunks[..g] + Fronted(after[n..]))
  }

  /** The image that the program takes an image for. */
  function Settled(chunks: seq<Chunk>): seq<Chunk>
  {
    if chunks != [] && chunks[0].Hole? then Fronted(chunks) else chunks
  }

  lemma FrontedHoles(gap: seq<Chunk>)
    requires AllHoles(gap)
    ensures Fronted(gap) == gap
  {
    hide HolePrefix, RawPrefix;
  }

  /** Holes, a run of data behind them, and what comes next. */
  ghost predicate IsSegment(gap: seq<Chunk>, run: seq<Chunk>, rest: seq<Chunk>)
  {
    gap != [] && AllHoles(gap) && run != [] && AllRaw(run) && (rest != [] ==> rest[0].Hole?)
  }

  lemma FrontedSegment(gap: seq<Chunk>, run: seq<Chunk>, rest: seq<Chunk>)
    requires IsSegment(gap, run, rest)
    ensures Fronted(gap + (run + rest)) == run + (gap + Fronted(rest))
  {
    hide HolePrefix, RawPrefix, Fronted, AllHoles;
    assert (run + rest)[0] == run[0];
    HolePrefixIs(gap, run + rest);
    RawPrefixIs(run, rest);
    FrontedUnfold(gap, run, rest);
  }

  lemma FrontedUnfold(gap: seq<Chunk>, run: seq<Chunk>, rest: seq<Chunk>)
    requires run != [] && HolePrefix(gap + (run + rest)) == |gap| && RawPrefix(run + rest) == |run|
    ensures Fronted(gap + (run + rest)) == run + (gap + Fronted(rest))
  {
    hide HolePrefix, RawPrefix, Fronted;
    CutInThree(gap, run, rest);
    FrontedBody(gap + (run + rest), gap, run + rest, run, rest);
  }

  lemma FrontedBody(chunks: seq<Chunk>, gap: seq<Chunk>, after: seq<Chunk>, run: seq<Chunk>, rest: seq<Chunk>)
    requires |gap| == HolePrefix(chunks) < |chunks| && gap == chunks[..|gap|] && after == chunks[|gap|..]
    requires |run| == RawPrefix(after) && run == after[..|run|] && rest == after[|run|..]
    ensures Fronted(chunks) == run + (gap + Fronted(rest))
  {
    hide HolePrefix, RawPrefix;
  }

  lemma CutInThree(a: seq<Chunk>, b: seq<Chunk>, c: seq<Chunk>)
    ensures var all := a + (b + c);
            all[..|a|] == a && all[|a|..] == b + c && (b + c)[..|b|] == b && (b + c)[|b|..] == c
  {
  }

  lemma HolePrefixIs(gap: seq<Chunk>, rest: seq<Chunk>)
    requires AllHoles(gap) && rest != [] && rest[0].Raw?
    ensures HolePrefix(gap + rest) == |gap|
  {
    hide HolePrefix;
    var all := gap + rest;
    assert forall i :: 0 <= i < |gap| ==> all[i] == gap[i];
    assert all[|gap|] == rest[0];
    assert HolePrefix(all) == |gap|;
  }

  lemma RawPrefixIs(run: seq<Chunk>, rest: seq<Chunk>)
    requires AllRaw(run) && (rest != [] ==> rest[0].Hole?)
    ensures RawPrefix(run + rest) == |run|
  {
    hide RawPrefix;
    var all := run + rest;
    assert forall i :: 0 <= i < |run| ==> all[i] == run[i];
    assert rest != [] ==> all[|run|] == rest[0];
    assert RawPrefix(all) == |run|;
  }

  /** An image that starts with holes, if it has data: its first segment, and the rest. */
  lemma FirstSegment(chunks: seq<Chunk>) returns (gap: seq<Chunk>, run: seq<Chunk>, rest: seq<Chunk>)
    requires Aligned(chunks) && chunks != [] && chunks[0].Hole? && !AllHoles(chunks)
    ensures IsSegment(gap, run, rest) && chunks == gap + (run + rest)
    ensures Aligned(run) && Aligned(rest) && |rest| < |chunks|
  {
    hide HolePrefix, RawPrefix;
    var g := HolePrefix(chunks);
    var after := chunks[g..];
    gap := chunks[..g];
    assert chunks == gap + after;
    AlignedTail(gap, after);
    BehindHoles(chunks, g);
    run, rest := RawRun(after);
    assert rest != [] ==> rest[0] == after[|run|];
  }

  lemma BehindHoles(chunks: seq<Chunk>, g: nat)
    requires g == HolePrefix(chunks) && !AllHoles(chunks)
    ensures g < |chunks| && chunks[g..][0].Raw? && AllHoles(chunks[..g])
  {
    hide HolePrefix;
  }

  lemma {:induction false} RunsBehindHoles(gap: seq<Chunk>, rest: seq<Chunk>)
    requires AllHoles(gap)
    ensures Runs(gap + rest) == Runs(rest)
  {
    if gap == [] {
      assert gap + rest == rest;
    } else {
      assert (gap + rest)[0] == gap[0] && (gap + rest)[1..] == gap[1..] + rest;
      RunsBehindHoles(gap[1..], rest);
    }
  }

  /** What changing places keeps: the runs, the blocks and the alignment. */
  lemma {:induction false} FrontedKeeps(chunks: seq<Chunk>)
    requires Aligned(chunks) && (chunks != [] ==> chunks[0].Hole?)
    ensures Aligned(Fronted(chunks)) && Runs(Fronted(chunks)) == Runs(chunks)
    ensures Blocks(Fronted(chunks)) == Blocks(chunks)
    decreases |chunks|
  {
    if AllHoles(chunks) {
      FrontedHoles(chunks);
    } else {
      hide Fronted, Runs, Blocks, RawPrefix, AllHoles, AllRaw;
      var gap, run, rest := FirstSegment(chunks);
      FrontedSegment(gap, run, rest);
      FrontedKeeps(rest);
      SegmentKeeps(gap, run, rest, Fronted(rest));
    }
  }

  lemma SegmentKeeps(gap: seq<Chunk>, run: seq<Chunk>, rest: seq<Chunk>, fronted: seq<Chunk>)
    requires IsSegment(gap, run, rest) && Aligned(gap + (run + rest)) && Aligned(fronted)
    requires Runs(fronted) == Runs(rest) && Blocks(fronted) == Blocks(rest)
    ensures Aligned(run + (gap + fronted))
    ensures Runs(run + (gap + fronted)) == Runs(gap + (run + rest))
    ensures Blocks(run + (gap + fronted)) == Blocks(gap + (run + rest))
  {
    hide Runs, Blocks, RawPrefix, DataOf;
    RunsOfRun(run, gap + fronted);
    RunsOfRun(run, rest);
    RunsBehindHoles(gap, fronted);
    RunsBehindHoles(gap, run + rest);
    BlocksConcat(run, gap + fronted);
    BlocksConcat(gap, fronted);
    BlocksConcat(gap, run + rest);
    BlocksConcat(run, rest);
    assert forall i :: 0 <= i < |gap| ==> gap[i] == (gap + (run + rest))[i];
    assert forall i :: 0 <= i < |run| ==> run[i] == (gap + (run + rest))[|gap| + i];
  }

  lemma RunsOfRun(run: seq<Chunk>, rest: seq<Chunk>)
    requires run != [] && AllRaw(run) && (rest != [] ==> rest[0].Hole?)
    ensures Runs(run + rest) == [run] + Runs(rest)
  {
    hide RawPrefix, Runs;
    RawPrefixIs(run, rest);
    assert (run + rest)[0] == run[0] && (run + rest)[..|run|] == run && (run + rest)[|run|..] == rest;
    RunsUnfold(run + rest, run, rest);
  }

  /** The scan behind leading holes adds these totals, and the commands that follow from them are those of the image
      with every run in front of its holes. */
  ghost predicate MeetsFronted(s: Scan, gap: seq<Chunk>, rest: seq<Chunk>, sector: nat, pos: nat, data: seq<Totals>,
                               holes: seq<Totals>)
  {
    var f := Finished(ScanFrom(s, rest));
    && f.data == s.data + data && f.holes == s.holes + holes
    && |data| == |holes| >= 1
    && Commands(data, holes, sector, pos) == ReferenceCommands(Fronted(gap + rest), sector, pos)
  }

  lemma {:induction false} ScanMeetsFronted(s: Scan, gap: seq<Chunk>, rest: seq<Chunk>, sector: nat, pos: nat)
    returns (data: seq<Totals>, holes: seq<Totals>)
    requires gap != [] && AllHoles(gap) && Aligned(rest) && rest != [] && rest[0].Raw?
    requires s.lastType == DONT_CARE && s.run == TotalsOf(gap)
    ensures MeetsFronted(s, gap, rest, sector, pos, data, holes)
    decreases |rest|
  {
    hide MeetsFronted, AllHoles, AllRaw, Aligned, Blocks, FileSize, Bytes, RawPrefix, TotalsOf, Fronted, ScanFrom;
    hide ReferenceCommands;
    var run, gap2, rest2 := FirstRun(rest);
    var sector2 := sector + 8 * Blocks(run) + 8 * Blocks(gap);
    var pos2 := pos + FileSize(run) + CHUNK_HEADER_SIZE * |gap|;
    if rest2 == [] {
      LastSegmentMeets(s, gap, rest, run, gap2, sector, pos, sector2, pos2);
      data, holes := [TotalsOf(run)], [TotalsOf(gap)];
    } else {
      var s2 := Scan(s.data + [TotalsOf(run)], s.holes + [TotalsOf(gap)], TotalsOf(gap2), DONT_CARE);
      var data2, holes2 := ScanMeetsFronted(s2, gap2, rest2, sector2, pos2);
      SegmentMeets(s, gap, rest, run, gap2, rest2, sector, pos, sector2, pos2, data2, holes2);
      data, holes := [TotalsOf(run)] + data2, [TotalsOf(gap)] + holes2;
    }
  }

  /** The reference commands of a run in front of its holes. */
  lemma FrontedReference(gap: seq<Chunk>, run: seq<Chunk>, after: seq<Chunk>, sector: nat, pos: nat, sector2: nat,
                         pos2: nat)
    requires IsSegment(gap, run, after)
    requires sector2 == sector + 8 * Blocks(run) + 8 * Blocks(gap)
    requires pos2 == pos + FileSize(run) + CHUNK_HEADER_SIZE * |gap|
    ensures ReferenceCommands(Fronted(gap + (run + after)), sector, pos)
         == [Command(sector, pos, Bytes(run))] + ReferenceCommands(Fronted(after), sector2, pos2)
  {
    hide Blocks, Bytes, FileSize, RawPrefix, ReferenceCommands, Fronted, AllRaw, AllHoles;
    FrontedSegment(gap, run, after);
    var all := run + (gap + Fronted(after));
    FirstOfRun(run, gap, Fronted(after));
    ReferenceOfFirstRun(all, run, gap, Fronted(after), sector, pos, sector2, pos2);
  }

  lemma FirstOfRun(run: seq<Chunk>, gap: seq<Chunk>, more: seq<Chunk>)
    requires run != [] && AllRaw(run) && gap != [] && AllHoles(gap)
    ensures var all := run + (gap + more); all[0].Raw? && run == all[..RawPrefix(all)]
  {
    hide RawPrefix;
    RawPrefixIs(run, gap + more);
  }

  lemma LastSegmentMeets(s: Scan, gap: seq<Chunk>, rest: seq<Chunk>, run: seq<Chunk>, gap2: seq<Chunk>, sector: nat,
                         pos: nat, sector2: nat, pos2: nat)
    requires gap != [] && AllHoles(gap) && s.lastType == DONT_CARE && s.run == TotalsOf(gap)
    requires rest == run + (gap2 + []) && run != [] && AllRaw(run) && AllHoles(gap2)
    requires sector2 == sector + 8 * Blocks(run) + 8 * Blocks(gap)
    requires pos2 == pos + FileSize(run) + CHUNK_HEADER_SIZE * |gap|
    ensures MeetsFronted(s, gap, rest, sector, pos, [TotalsOf(run)], [TotalsOf(gap)])
  {
    hide TotalsFrom, TotalsOf, ScanStep, SectorsOf, ReferenceCommands, ScanFrom, RawPrefix, Blocks, Bytes, FileSize;
    hide Add, Finished, Fronted;
    assert gap2 + [] == gap2;
    ScanRawRun(s, run, gap2);
    TotalsOfIs(run);
    ScanEnds(Scan(s.data, HolesBefore(s), TotalsOf(run), RAW), gap2);
    FrontedReference(gap, run, gap2, sector, pos, sector2, pos2);
    FrontedHoles(gap2);
    HolesHaveNoCommands(gap2, sector2, pos2);
  }

  lemma HolesHaveNoCommands(gap: seq<Chunk>, sector: nat, pos: nat)
    requires AllHoles(gap)
    ensures ReferenceCommands(gap, sector, pos) == []
  {
    hide ReferenceCommands;
    var sector2, pos2 := sector + 8 * Blocks(gap), pos + CHUNK_HEADER_SIZE * |gap|;
    ReferenceSkipsHoles(gap, [], sector, pos, sector2, pos2);
    ReferenceEnds(sector2, pos2);
    assert gap + [] == gap;
  }

  lemma SegmentMeets(s: Scan, gap: seq<Chunk>, rest: seq<Chunk>, run: seq<Chunk>, gap2: seq<Chunk>, rest2: seq<Chunk>,
                     sector: nat, pos: nat, sector2: nat, pos2: nat, data2: seq<Totals>, holes2: seq<Totals>)
    requires gap != [] && AllHoles(gap) && s.lastType == DONT_CARE && s.run == TotalsOf(gap)
    requires rest == run + (gap2 + rest2) && run != [] && AllRaw(run) && Aligned(run) && gap2 != [] && AllHoles(gap2)
    requires sector2 == sector + 8 * Blocks(run) + 8 * Blocks(gap)
    requires pos2 == pos + FileSize(run) + CHUNK_HEADER_SIZE * |gap|
    requires MeetsFronted(Scan(s.data + [TotalsOf(run)], s.holes + [TotalsOf(gap)], TotalsOf(gap2), DONT_CARE), gap2,
                          rest2, sector2, pos2, data2, holes2)
    ensures MeetsFronted(s, gap, rest, sector, pos, [TotalsOf(run)] + data2, [TotalsOf(gap)] + holes2)
  {
    hide TotalsFrom, TotalsOf, ScanStep, SectorsOf, ReferenceCommands, ScanFrom, RawPrefix, Blocks, Bytes, FileSize;
    hide Aligned, AllRaw, Add, Finished, Commands, Fronted;
    ScanRunAndGap(s, run, gap2, rest2);
    PlacesMatch(run, gap, sector, pos);
    CommandsFromTwo(TotalsOf(run), TotalsOf(gap), data2, holes2, sector, pos, sector2, pos2);
    FrontedReference(gap, run, gap2 + rest2, sector, pos, sector2, pos2);
    ConcatAssociates(s.data, [TotalsOf(run)], data2);
    ConcatAssociates(s.holes, [TotalsOf(gap)], holes2);
  }

  /** The commands of every image are the reference commands of the image it is taken for, and the scan keeps at most
      one run of holes for every run of data. */
  lemma SettledCommands(chunks: seq<Chunk>, startSector: nat)
    requires Aligned(chunks)
    ensures ImageCommands(chunks, startSector) == ReferenceCommands(Settled(chunks), startSector, FILE_HEADER_SIZE)
    ensures var f := Finished(ScanFrom(START, chunks)); |f.holes| <= |f.data| <= |f.holes| + 1
  {
    hide ScanFrom, ReferenceCommands, Commands, Aligned, Fronted, AllHoles, ScanStep, TotalsOf;
    if chunks == [] {
      NothingScanned(startSector);
    } else if chunks[0].Raw? {
      var data, holes := ScanMeetsReference(START, chunks, startSector, FILE_HEADER_SIZE);
      assert START.data + data == data && START.holes + holes == holes;
    } else if AllHoles(chunks) {
      FrontedHoles(chunks);
      NoRuns(chunks, startSector);
      OnlyHoles(chunks);
    } else {
      var gap, run, rest := FirstSegment(chunks);
      var s := Scan([], [], TotalsOf(gap), DONT_CARE);
      ScanLeadingHoles(gap, run + rest);
      AlignedTail(gap, run + rest);
      var data, holes := ScanMeetsFronted(s, gap, run + rest, startSector, FILE_HEADER_SIZE);
      assert [] + data == data && [] + holes == holes;
    }
  }

  lemma NothingScanned(startSector: nat)
    ensures ScanFrom(START, []) == START && ImageCommands([], startSector) == []
    ensures ReferenceCommands([], startSector, FILE_HEADER_SIZE) == []
  {
  }

  lemma OnlyHoles(gap: seq<Chunk>)
    requires AllHoles(gap)
    ensures var f := Finished(ScanFrom(START, gap)); f.data == [] && f.holes == []
  {
    ScanLeadingHoles(gap, []);
    assert gap + [] == gap;
  }

  lemma AlignedTail(a: seq<Chunk>, b: seq<Chunk>)
    requires Aligned(a + b)
    ensures Aligned(b)
  {
    assert forall i :: 0 <= i < |b| ==> b[i] == (a + b)[|a| + i];
  }

  /** What is sent for command i: in the file stand, from its offset on, chunks with the data of run i, and before them
      the holes it changed places with. */
  lemma {:induction false} FrontedStands(file: seq<byte>, chunks: seq<Chunk>, sector: nat, pos: nat, i: nat)
    returns (segment: seq<Chunk>)
    requires Aligned(chunks) && (chunks != [] ==> chunks[0].Hole?) && ChunksAt(file, pos, chunks) && i < |Runs(chunks)|
    ensures |ReferenceCommands(Fronted(chunks), sector, pos)| == |Runs(chunks)|
    ensures var c, run := ReferenceCommands(Fronted(chunks), sector, pos)[i], Runs(chunks)[i];
            && ChunksAt(file, c.fileOffset, segment) && segment != [] && Aligned(segment)
            && c.bytes == Bytes(run) == Bytes(segment) && AllData(segment) == AllData(run)
            && Aligned(run) && AllRaw(run)
            && c.startSector + 8 * Blocks(run) <= sector + 8 * Blocks(chunks)
    decreases |chunks|
  {
    hide ChunksAt, ReferenceCommands, Runs, Blocks, Bytes, FileSize, RawPrefix, Aligned, AllRaw, Fronted, AllData;
    FrontedKeeps(chunks);
    UnsparseByRuns(map[], sector, pos, Fronted(chunks));
    if AllHoles(chunks) {
      HolesHaveNoRuns(chunks);
    } else {
      var gap, run, rest := FirstSegment(chunks);
      var sector2 := sector + 8 * Blocks(run) + 8 * Blocks(gap);
      var pos2 := pos + FileSize(run) + CHUNK_HEADER_SIZE * |gap|;
      FrontedReference(gap, run, rest, sector, pos, sector2, pos2);
      SegmentStands(file, gap, run, rest, pos, pos2);
      SegmentRuns(gap, run, rest);
      if i == 0 {
        segment := gap + run;
      } else {
        segment := FrontedStands(file, rest, sector2, pos2, i - 1);
      }
    }
  }

  lemma HolesHaveNoRuns(gap: seq<Chunk>)
    requires AllHoles(gap)
    ensures Runs(gap) == []
  {
    hide Runs;
    RunsBehindHoles(gap, []);
    NothingToWrite(map[], 0, 0);
    assert gap + [] == gap;
  }

  lemma SegmentRuns(gap: seq<Chunk>, run: seq<Chunk>, rest: seq<Chunk>)
    requires IsSegment(gap, run, rest)
    ensures Runs(gap + (run + rest)) == [run] + Runs(rest)
    ensures Blocks(gap + (run + rest)) == Blocks(gap) + Blocks(run) + Blocks(rest)
  {
    hide Runs, Blocks;
    RunsBehindHoles(gap, run + rest);
    RunsOfRun(run, rest);
    BlocksConcat(gap, run + rest);
    BlocksConcat(run, rest);
  }

  lemma SegmentStands(file: seq<byte>, gap: seq<Chunk>, run: seq<Chunk>, rest: seq<Chunk>, pos: nat, pos2: nat)
    requires IsSegment(gap, run, rest) && ChunksAt(file, pos, gap + (run + rest)) && Aligned(gap + (run + rest))
    requires pos2 == pos + FileSize(run) + CHUNK_HEADER_SIZE * |gap|
    ensures ChunksAt(file, pos, gap + run) && ChunksAt(file, pos2, rest) && Aligned(gap + run)
    ensures Bytes(gap + run) == Bytes(run) && AllData(gap + run) == AllData(run)
  {
    hide ChunksAt, FileSize, AllRaw, AllHoles, Bytes, AllData, DataOf, Aligned;
    ConcatAssociates(gap, run, rest);
    ChunksAtConcat(file, pos, gap + run, rest);
    AlignedFront(gap + run, rest);
    HolesAddNothing(gap, run);
  }

  lemma AlignedFront(a: seq<Chunk>, b: seq<Chunk>)
    requires Aligned(a + b)
    ensures Aligned(a)
  {
    assert forall i :: 0 <= i < |a| ==> a[i] == (a + b)[i];
  }

  lemma {:induction false} HolesAddNothing(gap: seq<Chunk>, run: seq<Chunk>)
    requires AllHoles(gap)
    ensures Bytes(gap + run) == Bytes(run) && AllData(gap + run) == AllData(run)
    ensures FileSize(gap + run) == FileSize(run) + CHUNK_HEADER_SIZE * |gap|
  {
    if gap == [] {
      assert gap + run == run;
    } else {
      assert (gap + run)[0] == gap[0] && (gap + run)[1..] == gap[1..] + run;
      HolesAddNothing(gap[1..], run);
    }
  }
}
