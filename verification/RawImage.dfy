/** Sending a file in raw mode: announcing its sectors and streaming it in pieces of at most one payload. */
module RawImage {
  import opened CTypes
  import opened Sequences
  import opened Wrappers

  /** Zero bytes missing to the next sector boundary. */
  function Missing(n: nat, sector: nat): (r: nat)
    requires sector > 0
    ensures Whole(n + r, sector) && r < sector && (r == 0 <==> Whole(n, sector))
  {
    if n % sector == 0 then 0
    else
      NextBoundary(n, sector);
      sector - n % sector
  }

  lemma NextBoundary(n: nat, sector: nat)
    requires sector > 0 && n % sector != 0
    ensures 0 < sector - n % sector < sector
    ensures Whole(n + (sector - n % sector), sector) && !Whole(n, sector)
  {
    DivMod(n, sector);
    var k := n / sector;
    assert n + (sector - n % sector) == (k + 1) * sector;
    MultipleHasNoRest(k + 1, sector);
  }

  lemma DivMod(n: nat, sector: nat)
    requires sector > 0
    ensures n == n / sector * sector + n % sector
  {
  }

  lemma MultipleHasNoRest(k: nat, sector: nat)
    requires sector > 0
    ensures k * sector % sector == 0 && k * sector / sector == k
  {
    QuotientIs(k, 0, sector);
  }

  lemma MulOrder(a: nat, b: nat, d: nat)
    requires a < b
    ensures a * d + d <= b * d
  {
    assert (a + 1) * d <= b * d by {
      assert b * d == (a + 1) * d + (b - a - 1) * d;
    }
  }

  lemma DivisionIsUnique(q: nat, r: nat, q2: nat, r2: nat, d: nat)
    requires r < d && r2 < d && q * d + r == q2 * d + r2
    ensures q == q2 && r == r2
  {
    if q < q2 {
      MulOrder(q, q2, d);
    } else if q2 < q {
      MulOrder(q2, q, d);
    }
  }

  /** Quotient and remainder of a sum that shows them. */
  lemma QuotientIs(q: nat, r: nat, sector: nat)
    requires r < sector
    ensures (q * sector + r) / sector == q && (q * sector + r) % sector == r
  {
    var n := q * sector + r;
    DivMod(n, sector);
    DivisionIsUnique(n / sector, n % sector, q, r, sector);
  }

  /** The bytes fill whole sectors. */
  predicate Whole(n: nat, sector: nat)
    requires sector > 0
  {
    n % sector == 0
  }

  /** Whole sectors change no remainder. */
  lemma AddWhole(a: nat, b: nat, sector: nat)
    requires sector > 0 && Whole(a, sector)
    ensures (a + b) % sector == b % sector && (a + b) / sector == a / sector + b / sector
  {
    DivMod(a, sector);
    DivMod(b, sector);
    var q := a / sector + b / sector;
    assert q * sector == a / sector * sector + b / sector * sector;
    QuotientIs(q, b % sector, sector);
  }

  lemma WholeSum(a: nat, b: nat, sector: nat)
    requires sector > 0 && Whole(a, sector)
    ensures Whole(a + b, sector) <==> Whole(b, sector)
  {
    AddWhole(a, b, sector);
  }

  /** The bytes with zeros up to the next sector boundary. */
  function Padded(bytes: seq<byte>, sector: nat): (r: seq<byte>)
    requires sector > 0
    ensures Whole(|r|, sector) && bytes <= r && |r| < |bytes| + sector
    ensures forall i :: |bytes| <= i < |r| ==> r[i] == 0
  {
    bytes + ZeroBytes(Missing(|bytes|, sector))
  }

  lemma PaddedConcat(a: seq<byte>, b: seq<byte>, sector: nat)
    requires sector > 0 && Whole(|a|, sector)
    ensures Padded(a + b, sector) == a + Padded(b, sector)
  {
    AddWhole(|a|, |b|, sector);
  }

  /** One fread of at most want bytes into the payload buffer, and the zeros behind it: the buffer is never
      overrun, because it holds whole sectors. */
  method ReadPadded(file: seq<byte>, pos: nat, pbuf: array<byte>, want: nat, sector: nat) returns (got: nat, next: nat)
    requires sector > 0 && Whole(pbuf.Length, sector) && want <= pbuf.Length && pos <= |file|
    modifies pbuf
    ensures next == pos + Min(want, |file| - pos)
    ensures got <= pbuf.Length && pbuf[..got] == Padded(file[pos..next], sector)
  {
    got := Min(want, |file| - pos);
    next := pos + got;
    forall i | 0 <= i < got {
      pbuf[i] := file[pos + i];
    }
    assert pbuf[..got] == file[pos..next];
    if got % sector != 0 {
      var pad := sector - got % sector;
      PaddingFits(got, pbuf.Length, sector);
      forall i | got <= i < got + pad {
        pbuf[i] := 0;
      }
      got := got + pad;
    }
    assert pbuf[..got] == Padded(file[pos..next], sector);
  }

  lemma PaddingFits(got: nat, length: nat, sector: nat)
    requires sector > 0 && got <= length && Whole(length, sector) && got % sector != 0
    ensures got + (sector - got % sector) <= length
  {
    DivMod(got, sector);
    DivMod(length, sector);
    var q, k := got / sector, length / sector;
    if k < q {
      MulOrder(k, q, sector);
    } else if q < k {
      MulOrder(q, k, sector);
    }
  }

  /** The plain branch of fh_send_rawmode_image: limit bytes of the file, however large. */
  method SendPlain(file: seq<byte>, limit: nat, payload: nat, sector: nat) returns (pieces: seq<seq<byte>>, ok: bool)
    requires sector > 0 && payload > 0 && Whole(payload, sector)
    ensures Join(pieces) == Padded(file[..Min(limit, |file|)], sector)
    ensures forall i :: 0 <= i < |pieces| ==> 0 < |pieces[i]| <= payload && Whole(|pieces[i]|, sector)
    ensures ok <==> limit <= |Padded(file[..Min(limit, |file|)], sector)|
  {
    hide Join, Padded, Missing, Whole;
    var pbuf := new byte[payload];
    var filesend, pos := 0, 0;
    ghost var m := Min(limit, |file|);
    pieces := [];
    PaddedNothing(file, sector);
    while filesend < limit
      invariant pos <= m && (Whole(pos, sector) || pos == m)
      invariant Join(pieces) == Padded(file[..pos], sector) && filesend == |Join(pieces)|
      invariant forall i :: 0 <= i < |pieces| ==> 0 < |pieces[i]| <= payload && Whole(|pieces[i]|, sector)
      decreases |file| - pos
    {
      var want := if limit < filesend + payload then limit - filesend else payload;
      var got, next := ReadPadded(file, pos, pbuf, want, sector);
      PaddedWhole(file[..pos], sector);
      if got > 0 {
        assert |Padded(file[pos..next], sector)| > 0;
        PaddedWhole(file[pos..next], sector);
        JoinAppend(pieces, pbuf[..got]);
        OnePiece(file, pos, next, m, payload, sector);
        pieces := pieces + [pbuf[..got]];
        filesend := filesend + got;
        pos := next;
      } else {
        assert file[pos..next] <= pbuf[..got];
        break;
      }
    }
    PaddedWhole(file[..pos], sector);
    ok := filesend >= limit;
  }

  lemma PaddedNothing(file: seq<byte>, sector: nat)
    requires sector > 0
    ensures Join<byte>([]) == Padded(file[..0], sector) == [] && Whole(0, sector)
  {
  }

  lemma PaddedWhole(bytes: seq<byte>, sector: nat)
    requires sector > 0
    ensures Whole(|bytes|, sector) ==> Padded(bytes, sector) == bytes
  {
  }

  /** Reading on from a sector boundary. */
  lemma OnePiece(file: seq<byte>, pos: nat, next: nat, m: nat, payload: nat, sector: nat)
    requires sector > 0 && Whole(payload, sector) && pos <= next <= |file| && m <= |file|
    requires Whole(pos, sector)
    requires next - pos == payload || next >= m
    ensures Padded(file[..pos], sector) + Padded(file[pos..next], sector) == Padded(file[..next], sector)
    ensures Whole(next, sector) || next >= m
  {
    hide Padded, Whole;
    assert file[..next] == file[..pos] + file[pos..next];
    PaddedConcat(file[..pos], file[pos..next], sector);
    PaddedWhole(file[..pos], sector);
    WholeSum(pos, next - pos, sector);
  }

  // ---------- What is announced and what is sent ----------

  /** Sectors needed for n bytes. */
  function SectorsFor(n: nat, sector: nat): nat
    requires sector > 0
  {
    n / sector + if n % sector != 0 then 1 else 0
  }

  /** The 32-bit sector count announced for a file of n bytes: gpt_empty0.bin is announced one sector short. */
  function Announced(n: nat, sector: nat, gpt: bool): nat
    requires sector > 0 && n > 0
  {
    var sectors := SectorsFor(n, sector);
    CountIs(n, sector);
    (if gpt then sectors - 1 else sectors) % TWO32
  }

  /** Truncating the quotient first makes no difference. */
  lemma CountTruncated(n: nat, sector: nat)
    requires sector > 0
    ensures SectorsFor(n, sector) % TWO32
         == if n % sector != 0 then (n / sector % TWO32 + 1) % TWO32 else n / sector % TWO32
  {
    PlusOne(n / sector);
  }

  lemma PlusOne(q: nat)
    ensures (q % TWO32 + 1) % TWO32 == (q + 1) % TWO32
  {
  }

  lemma MinusOne(q: nat)
    requires q > 0
    ensures (q % TWO32 + TWO32 - 1) % TWO32 == (q - 1) % TWO32
  {
  }

  /** The number of bytes the host means to send; the subtraction is done in 64 unsigned bits. */
  function Limit(n: nat, gpt: bool): nat
    requires n < TWO64
  {
    if gpt then (if n >= 512 then n - 512 else n + TWO64 - 512) else n
  }

  function Sent(file: seq<byte>, sector: nat, gpt: bool): seq<byte>
    requires sector > 0 && |file| < TWO64
  {
    Padded(file[..Min(Limit(|file|, gpt), |file|)], sector)
  }

  /** The fields of a program entry that the host changes while it works. */
  class ProgramCmd {
    const sectorSize: nat
    const gpt: bool
    var filesz: nat
    var startSector: nat
    var numSectors: nat
    var fileOffset: nat
    var unsparseSize: nat

    constructor (sectorSize: nat, gpt: bool, startSector: nat)
      ensures this.sectorSize == sectorSize && this.gpt == gpt && this.startSector == startSector
    {
      this.sectorSize := sectorSize;
      this.gpt := gpt;
      this.startSector := startSector;
      filesz, numSectors, fileOffset, unsparseSize := 0, 0, 0, 0;
    }

    /** Fills in the sector count from the size of the file, if it can be read and is not empty. */
    method FixupProgram(file: Option<seq<byte>>) returns (ok: bool)
      requires sectorSize > 0
      modifies `numSectors, `filesz
      ensures ok <==> file.Some? && file.value != []
      ensures numSectors == if ok then Announced(|file.value|, sectorSize, gpt) else 0
      ensures file.Some? ==> filesz == |file.value| % TWO32
      ensures file.None? ==> filesz == old(filesz)
    {
      hide SectorsFor;
      if file.None? {
        numSectors := 0;
        return false;
      }
      var filesize := |file.value|;
      if filesize <= 0 {
        numSectors, filesz := 0, 0;
        return false;
      }
      filesz := filesize % TWO32;
      numSectors := filesize / sectorSize % TWO32;
      if filesize % sectorSize != 0 {
        numSectors := (numSectors + 1) % TWO32;
      }
      CountTruncated(filesize, sectorSize);
      if gpt {
        CountIs(filesize, sectorSize);
        MinusOne(SectorsFor(filesize, sectorSize));
        numSectors := (numSectors + TWO32 - 1) % TWO32;
      }
      return true;
    }

    /** The plain branch of sending: the file, or all but 512 bytes of it. */
    method SendImage(file: seq<byte>, payload: nat) returns (pieces: seq<seq<byte>>, ok: bool)
      requires sectorSize > 0 && payload > 0 && Whole(payload, sectorSize) && |file| < TWO64
      ensures Join(pieces) == Sent(file, sectorSize, gpt)
      ensures forall i :: 0 <= i < |pieces| ==> 0 < |pieces[i]| <= payload && Whole(|pieces[i]|, sectorSize)
      ensures ok <==> Limit(|file|, gpt) <= |Sent(file, sectorSize, gpt)|
    {
      hide Padded, Join, Whole;
      pieces, ok := SendPlain(file, Limit(|file|, gpt), payload, sectorSize);
    }
  }

  /** The sector count is the least that holds the bytes. */
  lemma CountIs(n: nat, sector: nat)
    requires sector > 0
    ensures n <= SectorsFor(n, sector) * sector < n + sector
    ensures n > 0 ==> SectorsFor(n, sector) > 0
  {
    DivMod(n, sector);
    assert SectorsFor(n, sector) * sector == n / sector * sector + if n % sector != 0 then sector else 0;
  }

  lemma CountIsUnique(n: nat, k: nat, sector: nat)
    requires sector > 0 && n <= k * sector < n + sector
    ensures k == SectorsFor(n, sector)
  {
    hide SectorsFor;
    CountIs(n, sector);
    var c := SectorsFor(n, sector);
    if c < k {
      MulOrder(c, k, sector);
    } else if k < c {
      MulOrder(k, c, sector);
    }
  }

  lemma PaddedLength(bytes: seq<byte>, sector: nat)
    requires sector > 0
    ensures |Padded(bytes, sector)| == SectorsFor(|bytes|, sector) * sector
  {
    hide SectorsFor;
    var r := |Padded(bytes, sector)|;
    assert r % sector == 0 by {
      assert Whole(r, sector);
    }
    DivMod(r, sector);
    CountIsUnique(|bytes|, r / sector, sector);
  }

  /** An ordinary file is streamed as many sectors as were announced, unless the count does not fit its field. */
  lemma OrdinarySentAsAnnounced(file: seq<byte>, sector: nat)
    requires sector > 0 && 0 < |file| < TWO64
    ensures Sent(file, sector, false) == Padded(file, sector)
    ensures Limit(|file|, false) <= |Sent(file, sector, false)|
    ensures |Sent(file, sector, false)| == Announced(|file|, sector, false) * sector
       <==> SectorsFor(|file|, sector) < TWO32
  {
    hide SectorsFor;
    assert file[..|file|] == file;
    PaddedLength(file, sector);
    var c := SectorsFor(|file|, sector);
    if c >= TWO32 {
      MulOrder(c % TWO32, c, sector);
    }
  }

  /** gpt_empty0.bin is streamed without its last 512 bytes; that is the announced number of sectors exactly when
      those bytes reach over one sector boundary. */
  lemma GptSentAsAnnounced(file: seq<byte>, sector: nat)
    requires sector > 0 && 512 <= |file| < TWO64
    ensures Sent(file, sector, true) == Padded(file[..|file| - 512], sector)
    ensures Limit(|file|, true) <= |Sent(file, sector, true)|
    ensures |Sent(file, sector, true)| == Announced(|file|, sector, true) * sector
       <==> SectorsFor(|file|, sector) <= TWO32 && 512 - sector <= (|file| - 1) % sector < 512
  {
    hide SectorsFor, Padded;
    var c, d := SectorsFor(|file|, sector), SectorsFor(|file| - 512, sector);
    PaddedLength(file[..|file| - 512], sector);
    CountLessGpt(|file|, sector);
    WrapsOnlyAbove(c, d);
    SameProduct((c - 1) % TWO32, d, sector);
  }

  lemma SameProduct(a: nat, d: nat, sector: nat)
    requires sector > 0
    ensures a * sector == d * sector <==> a == d
  {
    if a < d {
      MulOrder(a, d, sector);
    } else if d < a {
      MulOrder(d, a, sector);
    }
  }

  lemma WrapsOnlyAbove(c: nat, d: nat)
    requires d + 512 >= c >= 1
    ensures (c - 1) % TWO32 == d <==> c <= TWO32 && d + 1 == c
  {
  }

  lemma CountLessGpt(n: nat, sector: nat)
    requires sector > 0 && n >= 512
    ensures SectorsFor(n - 512, sector) + 512 >= SectorsFor(n, sector) >= 1
    ensures SectorsFor(n - 512, sector) + 1 == SectorsFor(n, sector) <==> 512 - sector <= (n - 1) % sector < 512
  {
    hide SectorsFor;
    var c, d := SectorsFor(n, sector), SectorsFor(n - 512, sector);
    var q, r := (n - 1) / sector, (n - 1) % sector;
    CountIs(n - 512, sector);
    LastSector(n, sector);
    FewerSectors(n, sector, c, d);
    if d == q {
      assert n - 512 <= q * sector < n - 512 + sector;
    } else if 512 - sector <= r < 512 {
      CountIsUnique(n - 512, q, sector);
    }
  }

  lemma LastSector(n: nat, sector: nat)
    requires sector > 0 && n > 0
    ensures n - 1 == (n - 1) / sector * sector + (n - 1) % sector
    ensures SectorsFor(n, sector) == (n - 1) / sector + 1
  {
    hide SectorsFor;
    DivMod(n - 1, sector);
    var q := (n - 1) / sector;
    assert (q + 1) * sector == q * sector + sector;
    CountIsUnique(n, q + 1, sector);
  }

  lemma FewerSectors(n: nat, sector: nat, c: nat, d: nat)
    requires sector > 0 && n >= 512 && c == SectorsFor(n, sector) && d == SectorsFor(n - 512, sector)
    ensures d + 512 >= c
  {
    hide SectorsFor;
    CountIs(n, sector);
    CountIs(n - 512, sector);
    assert (d + 512) * sector == d * sector + 512 * sector;
    if d + 512 < c {
      MulOrder(d + 512, c, sector);
    }
  }

  /** A gpt_empty0.bin of fewer than 512 bytes can never be sent: the limit wraps around. With sectors of 512 bytes or
      more the count announced for it is 0, at which a session stops before anything is sent. */
  lemma ShortGptFails(file: seq<byte>, sector: nat)
    requires 0 < sector < TWO32 && |file| < 512
    ensures Limit(|file|, true) > |Sent(file, sector, true)|
    ensures sector >= 512 && file != [] ==> Announced(|file|, sector, true) == 0
  {
    hide Whole;
    if sector >= 512 && file != [] {
      CountIsUnique(|file|, 1, sector);
    }
  }
}
