/** The incremental MD5 digest: a buffer, a length counter in two parts, and the words so far. */
module Md5 {
  import opened CTypes
  import opened Md5Block
  import opened Sequences

  const TWO29: nat := 0x2000_0000

  // ---------- RFC 1321, sections 3.1 to 3.5, on the whole message ----------

  const BEGIN: Words := Words(0x67452301, 0xefcdab89, 0x98badcfe, 0x10325476)

  /** Four bytes as a word, low-order byte first. */
  function WordAt(bytes: seq<bv8>, pos: nat): bv32
    requires pos + 4 <= |bytes|
  {
    (bytes[pos] as bv32) | (bytes[pos + 1] as bv32 << 8)
    | (bytes[pos + 2] as bv32 << 16) | (bytes[pos + 3] as bv32 << 24)
  }

  function BlockAt(bytes: seq<bv8>, pos: nat): (x: seq<bv32>)
    requires pos + 64 <= |bytes|
    ensures |x| == 16
  {
    seq(16, k requires 0 <= k < 16 => WordAt(bytes, pos + 4 * k))
  }

  /** The words after all blocks. */
  function Fold(w: Words, bytes: seq<bv8>): Words
    requires |bytes| % 64 == 0
    decreases |bytes|
  {
    if bytes == [] then w else Fold(Compress(w, BlockAt(bytes, 0)), bytes[64..])
  }

  function Zeros8(n: nat): (z: seq<bv8>)
    ensures |z| == n
  {
    seq(n, _ => 0)
  }

  /** Byte k of a number, low-order byte first. */
  function ByteOf(n: nat, k: nat): bv8
    requires k < 8
  {
    (n / Power256(k) % 256) as bv8
  }

  function Power256(k: nat): (p: nat)
    requires k < 8
    ensures p > 0
  {
    if k == 0 then 1
    else if k == 1 then 0x100
    else if k == 2 then 0x1_0000
    else if k == 3 then 0x100_0000
    else if k == 4 then 0x1_0000_0000
    else if k == 5 then 0x100_0000_0000
    else if k == 6 then 0x1_0000_0000_0000
    else 0x100_0000_0000_0000
  }

  function NumberBytes(n: nat, from: nat, count: nat): (r: seq<bv8>)
    requires from + count <= 8
    ensures |r| == count
  {
    seq(count, k requires 0 <= k < count => ByteOf(n, from + k))
  }

  /** Zero bytes of padding behind the byte 0x80. */
  function PaddingZeros(n: nat): (z: nat)
    ensures z < 64 && (n + 1 + z) % 64 == 56
  {
    (119 - n % 64) % 64
  }

  /** The message with the padding and the 64-bit count of its bits. */
  function PaddedMessage(message: seq<bv8>): (r: seq<bv8>)
    ensures |r| % 64 == 0
  {
    message + [0x80] + Zeros8(PaddingZeros(|message|)) + NumberBytes(8 * |message|, 0, 8)
  }

  function WordBytes(w: bv32): seq<bv8>
  {
    [(w & 0xff) as bv8, ((w >> 8) & 0xff) as bv8, ((w >> 16) & 0xff) as bv8, (w >> 24) as bv8]
  }

  function DigestBytes(w: Words): seq<bv8>
  {
    WordBytes(w.a) + WordBytes(w.b) + WordBytes(w.c) + WordBytes(w.d)
  }

  /** The digest of a message. */
  function Digest(message: seq<bv8>): seq<bv8>
  {
    DigestBytes(Fold(BEGIN, PaddedMessage(message)))
  }

  // ---------- Folding ----------

  lemma {:induction false} FoldConcat(w: Words, a: seq<bv8>, b: seq<bv8>)
    requires |a| % 64 == 0 && |b| % 64 == 0
    ensures Fold(w, a + b) == Fold(Fold(w, a), b)
    decreases |a|
  {
    hide Compress, WordAt;
    if a == [] {
      assert a + b == b;
    } else {
      assert (a + b)[64..] == a[64..] + b;
      FirstBlock(a, b);
      FoldConcat(Compress(w, BlockAt(a, 0)), a[64..], b);
    }
  }

  lemma FirstBlock(a: seq<bv8>, b: seq<bv8>)
    requires |a| >= 64
    ensures BlockAt(a + b, 0) == BlockAt(a, 0)
  {
  }

  lemma FoldOne(w: Words, bytes: seq<bv8>)
    requires |bytes| == 64
    ensures Fold(w, bytes) == Compress(w, BlockAt(bytes, 0))
  {
    hide Compress, WordAt;
    assert bytes[64..] == [];
  }

  function Whole(n: nat): (r: nat)
    ensures r <= n && r % 64 == 0 && n - r == n % 64
  {
    n - n % 64
  }

  /** The words after the whole blocks of a message. */
  function Absorbed(message: seq<bv8>): Words
  {
    Fold(BEGIN, message[..Whole(|message|)])
  }

  function Tail(message: seq<bv8>): (t: seq<bv8>)
    ensures |t| == |message| % 64 < 64
  {
    message[Whole(|message|)..]
  }

  /** Whole blocks folded so far and fewer than 64 bytes left: that is the state for all of them. */
  lemma StateOf(done: seq<bv8>, rest: seq<bv8>)
    requires |done| % 64 == 0 && |rest| < 64
    ensures Absorbed(done + rest) == Fold(BEGIN, done) && Tail(done + rest) == rest
  {
    hide Fold;
    assert Whole(|done + rest|) == |done|;
    assert (done + rest)[..|done|] == done;
  }

  class Md5Ctx {
    var lo: nat
    var hi: nat
    var words: Words
    const buffer: array<bv8>
    ghost var message: seq<bv8>

    /** The counter holds the length modulo 2^61, the words stand for the whole blocks of what was hashed, and the
        buffer starts with the rest. */
    ghost predicate Valid()
      reads this, buffer
    {
      && buffer.Length == 64
      && lo < TWO29 && lo == |message| % TWO29 && hi == |message| / TWO29 % TWO32
      && words == Absorbed(message)
      && buffer[..lo % 64] == Tail(message)
    }

    constructor ()
      ensures Valid() && message == [] && fresh(buffer)
    {
      hide Fold;
      buffer := new bv8[64](_ => 0);
      words := BEGIN;
      lo, hi := 0, 0;
      message := [];
      new;
      StateOf([], []);
      FoldNothing(BEGIN);
      assert [] + [] == message;
    }

    /** Folds size bytes of the data, from pos on, into the words. */
    method Body(data: seq<bv8>, pos: nat, size: nat) returns (next: nat)
      requires size > 0 && size % 64 == 0 && pos + size <= |data|
      modifies `words
      ensures next == pos + size && words == Fold(old(words), data[pos..pos + size])
    {
      hide Fold, Compress, BlockAt;
      var left: nat := size;
      var w := words;
      next := pos;
      FoldNothing(words);
      assert data[pos..next] == [];
      while left > 0
        invariant left <= size && left % 64 == 0 && next == pos + (size - left)
        invariant w == Fold(old(words), data[pos..next])
        invariant words == old(words)
      {
        var x := Load(data, next);
        FoldConcat(words, data[pos..next], data[next..next + 64]);
        FoldOne(w, data[next..next + 64]);
        SameBlock(data, next);
        assert data[pos..next] + data[next..next + 64] == data[pos..next + 64];
        w := CompressBlock(w, x);
        next, left := next + 64, left - 64;
      }
      words := w;
    }

    method Load(data: seq<bv8>, pos: nat) returns (x: seq<bv32>)
      requires pos + 64 <= |data|
      ensures x == BlockAt(data, pos)
    {
      hide WordAt;
      x := [];
      while |x| < 16
        invariant |x| <= 16 && forall k :: 0 <= k < |x| ==> x[k] == WordAt(data, pos + 4 * k)
      {
        x := x + [WordAt(data, pos + 4 * |x|)];
      }
    }

    /** Copies part of the data into the buffer. */
    method Copy(at: nat, data: seq<bv8>)
      requires at + |data| <= buffer.Length
      modifies buffer
      ensures buffer[..] == old(buffer[..at]) + data + old(buffer[at + |data|..])
    {
      forall i | 0 <= i < |data| {
        buffer[at + i] := data[i];
      }
    }

    /** Adds to the counter of bytes, which stood at n. */
    method Count(size: nat, ghost n: nat)
      requires lo == n % TWO29 && hi == n / TWO29 % TWO32
      modifies `lo, `hi
      ensures lo == (n + size) % TWO29 && hi == (n + size) / TWO29 % TWO32
    {
      Counted(n, size);
      var savedLo := lo;
      lo := (savedLo + size) % TWO29;
      if lo < savedLo {
        hi := (hi + 1) % TWO32;
      }
      hi := (hi + size / TWO29) % TWO32;
    }

    /** md5_hash: more bytes of the message. */
    method Hash(data: seq<bv8>)
      requires Valid()
      modifies this, buffer
      ensures Valid() && message == old(message) + data
    {
      hide Fold, Absorbed, Tail, Progress, Whole;
      LowBits(|message|);
      LowBits(|message| + |data|);
      ProgressStart(words, message, data);
      var used := lo % 64;
      Count(|data|, |message|);
      ghost var tail := Tail(message);
      message := message + data;
      Take(used, data, tail);
    }

    /** Fills up the buffer and folds it, folds the whole blocks of the data, and keeps the rest. */
    method Take(used: nat, data: seq<bv8>, ghost tail: seq<bv8>)
      requires buffer.Length == 64 && used < 64 && buffer[..used] == tail && Progress(words, tail + data, message)
      modifies `words, buffer
      ensures words == Absorbed(message) && buffer[..|Tail(message)|] == Tail(message)
    {
      hide Fold, Absorbed, Tail, Progress, Whole;
      var size, pos: nat := |data|, 0;
      ghost var rest := tail + data;
      if used > 0 {
        var available := 64 - used;
        if size < available {
          Copy(used, data);
          ProgressEnd(words, rest, message);
          assert buffer[..used + size] == rest;
          return;
        }
        Copy(used, data[..available]);
        assert buffer[..] == rest[..64] == buffer[..][0..64];
        var _ := Body(buffer[..], 0, 64);
        ProgressStep(old(words), rest, 64, message, words);
        rest := rest[64..];
        pos := available;
      }
      assert rest == data[pos..];
      pos := TakeBlocks(data, pos);
      Copy(0, data[pos..]);
      ProgressEnd(words, data[pos..], message);
      assert buffer[..|data| - pos] == data[pos..];
    }

    method TakeBlocks(data: seq<bv8>, pos: nat) returns (next: nat)
      requires pos <= |data| && Progress(words, data[pos..], message)
      modifies `words
      ensures pos <= next <= |data| < next + 64 && Progress(words, data[next..], message)
    {
      hide Fold, Progress;
      next := pos;
      if |data| - pos >= 64 {
        var whole := Whole(|data| - pos);
        next := Body(data, pos, whole);
        assert data[pos..next] == data[pos..][..whole];
        ProgressStep(old(words), data[pos..], whole, message, words);
        assert data[pos..][whole..] == data[next..];
      }
    }

    /** The byte 0x80 and zeros, up to the place of the length; the block before is folded if there is no room. */
    method PadBuffer(ghost tail: seq<bv8>)
      requires buffer.Length == 64 && lo % 64 == |tail| && buffer[..|tail|] == tail
      modifies `words, buffer
      ensures buffer[..56] == LastFront(tail)
      ensures words == if |tail| < 56 then old(words) else Fold(old(words), FirstOfTwo(tail))
    {
      hide Fold;
      var used := lo % 64;
      Copy(used, [0x80]);
      used := used + 1;
      var available := 64 - used;
      if available < 8 {
        Copy(used, Zeros8(available));
        assert buffer[..] == FirstOfTwo(tail) == buffer[..][0..64];
        var _ := Body(buffer[..], 0, 64);
        used, available := 0, 64;
      }
      Copy(used, Zeros8(available - 8));
    }

    /** The number of bits, in the last eight bytes. */
    method StoreLength()
      requires buffer.Length == 64 && lo < TWO29
      modifies `lo, buffer
      ensures lo == 8 * old(lo)
      ensures buffer[..] == old(buffer[..56]) + NumberBytes(lo, 0, 4) + NumberBytes(hi, 0, 4)
    {
      hide NumberBytes;
      lo := lo * 8 % TWO32;
      Copy(56, NumberBytes(lo, 0, 4));
      Copy(60, NumberBytes(hi, 0, 4));
    }

    /** md5_end: padding, length, and the digest; the context is wiped. */
    method End() returns (result: seq<bv8>)
      requires Valid()
      modifies this, buffer
      ensures result == Digest(old(message))
      ensures lo == 0 && hi == 0 && words == Words(0, 0, 0, 0) && buffer[..] == Zeros8(64)
    {
      hide Fold, Absorbed, Tail, NumberBytes, DigestBytes, FirstOfTwo, LastFront, Digest;
      LowBits(|message|);
      PadBuffer(Tail(message));
      StoreLength();
      assert buffer[..] == buffer[..][0..64];
      var _ := Body(buffer[..], 0, 64);
      EndIsDigest(message, words);
      result := DigestBytes(words);
      lo, hi, words := 0, 0, Words(0, 0, 0, 0);
      Copy(0, Zeros8(64));
    }
  }

  /** The block before the last, when the padding takes two. */
  function FirstOfTwo(tail: seq<bv8>): (r: seq<bv8>)
    requires 56 <= |tail| < 64
    ensures |r| == 64
  {
    tail + [0x80] + Zeros8(63 - |tail|)
  }

  /** The last block up to the length. */
  function LastFront(tail: seq<bv8>): (r: seq<bv8>)
    requires |tail| < 64
    ensures |r| == 56
  {
    if |tail| < 56 then tail + [0x80] + Zeros8(55 - |tail|) else Zeros8(56)
  }

  function LastBlock(tail: seq<bv8>, bitsLow: nat, bitsHigh: nat): (r: seq<bv8>)
    requires |tail| < 64
    ensures |r| == 64
  {
    LastFront(tail) + NumberBytes(bitsLow, 0, 4) + NumberBytes(bitsHigh, 0, 4)
  }

  /** The padded message is the whole blocks of the message and one or two blocks more. */
  lemma PaddedInBlocks(message: seq<bv8>)
    ensures var n, tail, front := |message|, Tail(message), message[..Whole(|message|)];
            var last := LastBlock(tail, 8 * (n % TWO29), n / TWO29 % TWO32);
            PaddedMessage(message) == if |tail| < 56 then front + last else (front + FirstOfTwo(tail)) + last
  {
    hide NumberBytes, LastFront, Zeros8, FirstOfTwo;
    var n, tail, front := |message|, Tail(message), message[..Whole(|message|)];
    var low, high := NumberBytes(8 * (n % TWO29), 0, 4), NumberBytes(n / TWO29 % TWO32, 0, 4);
    LengthInTwoParts(n);
    assert message == front + tail;
    PaddingBehind(front, tail, Zeros8(PaddingZeros(n)), low + high);
    ZerosOfTail(n, tail);
    if |tail| < 56 {
      ConcatAssociates(LastFront(tail), low, high);
    } else {
      ConcatAssociates(LastFront(tail), low, high);
      ConcatAssociates(front, FirstOfTwo(tail), LastFront(tail) + low + high);
      ConcatAssociates(FirstOfTwo(tail), LastFront(tail), low + high);
    }
  }

  lemma PaddingBehind(front: seq<bv8>, tail: seq<bv8>, zeros: seq<bv8>, length: seq<bv8>)
    ensures (front + tail) + [0x80] + zeros + length == front + ((tail + [0x80] + zeros) + length)
  {
  }

  /** The zeros fill the last block, or the one before it and the last. */
  lemma ZerosOfTail(n: nat, tail: seq<bv8>)
    requires |tail| == n % 64
    ensures tail + [0x80] + Zeros8(PaddingZeros(n))
         == if |tail| < 56 then LastFront(tail) else FirstOfTwo(tail) + LastFront(tail)
  {
  }

  /** Folding the last one or two blocks folds the padded message. */
  lemma EndIsDigest(message: seq<bv8>, w: Words)
    requires var n, tail := |message|, Tail(message);
             var last := LastBlock(tail, 8 * (n % TWO29), n / TWO29 % TWO32);
             w == if |tail| < 56 then Fold(Absorbed(message), last)
                  else Fold(Fold(Absorbed(message), FirstOfTwo(tail)), last)
    ensures DigestBytes(w) == Digest(message)
  {
    hide Fold, DigestBytes, LastBlock, FirstOfTwo, Tail, PaddedMessage, Whole;
    var n, tail, front := |message|, Tail(message), message[..Whole(|message|)];
    var last := LastBlock(tail, 8 * (n % TWO29), n / TWO29 % TWO32);
    PaddedInBlocks(message);
    if |tail| < 56 {
      FoldConcat(BEGIN, front, last);
    } else {
      FoldConcat(BEGIN, front, FirstOfTwo(tail));
      FoldConcat(BEGIN, front + FirstOfTwo(tail), last);
    }
  }

  /** The eight bytes of the bit count are those of the two parts of the counter. */
  lemma LengthInTwoParts(n: nat)
    ensures NumberBytes(8 * n, 0, 8) == NumberBytes(8 * (n % TWO29), 0, 4) + NumberBytes(n / TWO29 % TWO32, 0, 4)
  {
    var x, q := 8 * (n % TWO29), n / TWO29;
    assert 8 * n == x + TWO32 * q;
    assert forall k :: 0 <= k < 8 ==> ByteOf(8 * n, k) == if k < 4 then ByteOf(x, k) else ByteOf(q % TWO32, k - 4) by {
      forall k | 0 <= k < 8
        ensures ByteOf(8 * n, k) == if k < 4 then ByteOf(x, k) else ByteOf(q % TWO32, k - 4)
      {
        if k < 4 {
          LowByte(x, q, k);
        } else {
          HighByte(x, q, k - 4);
        }
      }
    }
  }

  lemma DivByte(x: nat, z: nat)
    ensures (x + 0x100 * z) / 0x100 == x / 0x100 + z && (x + 0x100 * z) % 0x100 == x % 0x100
  {
  }

  lemma DivTwoBytes(x: nat, z: nat)
    ensures (x + 0x1_0000 * z) / 0x1_0000 == x / 0x1_0000 + z
  {
  }

  lemma DivThreeBytes(x: nat, z: nat)
    ensures (x + 0x100_0000 * z) / 0x100_0000 == x / 0x100_0000 + z
  {
  }

  lemma LowByte(x: nat, q: nat, k: nat)
    requires k < 4
    ensures (x + TWO32 * q) / Power256(k) % 256 == x / Power256(k) % 256
  {
    if k == 0 {
      DivByte(x, 0x100_0000 * q);
    } else if k == 1 {
      DivByte(x, 0x100_0000 * q);
      DivByte(x / 0x100, 0x1_0000 * q);
    } else if k == 2 {
      DivTwoBytes(x, 0x1_0000 * q);
      DivByte(x / 0x1_0000, 0x100 * q);
    } else {
      DivThreeBytes(x, 0x100 * q);
      DivByte(x / 0x100_0000, q);
    }
  }

  lemma DivTwice(n: nat)
    ensures n / 0x100_0000_0000 == n / TWO32 / 0x100 && n / 0x1_0000_0000_0000 == n / TWO32 / 0x1_0000
    ensures n / 0x100_0000_0000_0000 == n / TWO32 / 0x100_0000
  {
  }

  lemma DivWord(x: nat, q: nat)
    requires x < TWO32
    ensures (x + TWO32 * q) / TWO32 == q
  {
  }

  lemma HighByte(x: nat, q: nat, j: nat)
    requires j < 4 && x < TWO32
    ensures (x + TWO32 * q) / Power256(j + 4) % 256 == q % TWO32 / Power256(j) % 256
  {
    DivWord(x, q);
    DivTwice(x + TWO32 * q);
    LowByte(q % TWO32, q / TWO32, j);
    assert q == q % TWO32 + TWO32 * (q / TWO32);
  }

  /** The words stand for whole blocks at the front of the message, and the rest is still to come. */
  ghost predicate Progress(w: Words, rest: seq<bv8>, message: seq<bv8>)
  {
    exists done: seq<bv8> :: |done| % 64 == 0 && done + rest == message && w == Fold(BEGIN, done)
  }

  lemma ProgressStart(w: Words, message: seq<bv8>, data: seq<bv8>)
    requires w == Absorbed(message)
    ensures Progress(w, Tail(message) + data, message + data)
  {
    hide Fold;
    var done := message[..Whole(|message|)];
    assert done + (Tail(message) + data) == message + data;
  }

  lemma ProgressStep(w: Words, rest: seq<bv8>, n: nat, message: seq<bv8>, w2: Words)
    requires Progress(w, rest, message) && n <= |rest| && n % 64 == 0 && w2 == Fold(w, rest[..n])
    ensures Progress(w2, rest[n..], message)
  {
    hide Fold;
    var done :| |done| % 64 == 0 && done + rest == message && w == Fold(BEGIN, done);
    FoldConcat(BEGIN, done, rest[..n]);
    Regrouped(done, rest, n);
    assert w2 == Fold(BEGIN, done + rest[..n]);
  }

  lemma Regrouped(done: seq<bv8>, rest: seq<bv8>, n: nat)
    requires n <= |rest|
    ensures (done + rest[..n]) + rest[n..] == done + rest
  {
  }

  lemma ProgressEnd(w: Words, rest: seq<bv8>, message: seq<bv8>)
    requires Progress(w, rest, message) && |rest| < 64
    ensures w == Absorbed(message) && rest == Tail(message)
  {
    hide Fold;
    var done :| |done| % 64 == 0 && done + rest == message && w == Fold(BEGIN, done);
    StateOf(done, rest);
  }

  lemma SplitIs(k: nat, r: nat)
    requires r < TWO29
    ensures (k * TWO29 + r) / TWO29 == k && (k * TWO29 + r) % TWO29 == r
  {
  }

  lemma WrapSum(a: nat, b: nat, c: nat)
    ensures ((a % TWO32 + b) % TWO32 + c) % TWO32 == (a + b + c) % TWO32
  {
  }

  /** The two parts of the counter count. */
  lemma Counted(n: nat, size: nat)
    ensures var lo, lo2 := n % TWO29, (n % TWO29 + size) % TWO29;
            && lo2 == (n + size) % TWO29
            && ((n / TWO29 % TWO32 + (if lo2 < lo then 1 else 0)) % TWO32 + size / TWO29) % TWO32
               == (n + size) / TWO29 % TWO32
  {
    var q: nat, r: nat, q2: nat, r2: nat := n / TWO29, n % TWO29, size / TWO29, size % TWO29;
    var c := if r + r2 < TWO29 then 0 else 1;
    var low := r + r2 - c * TWO29;
    SplitIs(q2 + c, low);
    SplitIs(q + q2 + c, low);
    WrapSum(q, c, q2);
  }

  /** The two parts together are the length modulo 2^61. */
  lemma CounterIsLength(n: nat)
    ensures n / TWO29 % TWO32 * TWO29 + n % TWO29 == n % (TWO29 * TWO32)
  {
    var q: nat, low: nat := n / TWO29, n % TWO29;
    var high: nat, turns: nat := q % TWO32, q / TWO32;
    assert n == turns * (TWO29 * TWO32) + (high * TWO29 + low);
  }

  /** The low six bits of the counter are those of the length. */
  lemma LowBits(n: nat)
    ensures n % TWO29 % 64 == n % 64
  {
  }

  lemma FoldNothing(w: Words)
    ensures Fold(w, []) == w
  {
  }

  lemma SameBlock(data: seq<bv8>, pos: nat)
    requires pos + 64 <= |data|
    ensures BlockAt(data[pos..pos + 64], 0) == BlockAt(data, pos)
  {
  }

  // ---------- Any way of cutting the message ----------

  lemma JoinOneMore(pieces: seq<seq<bv8>>, i: nat)
    requires i < |pieces|
    ensures Join(pieces[..i + 1]) == Join(pieces[..i]) + pieces[i]
  {
    assert pieces[..i + 1] == pieces[..i] + [pieces[i]];
    JoinAppend(pieces[..i], pieces[i]);
  }

  /** However the message is cut, hashing the pieces one behind the other gives its digest. */
  method DigestOfPieces(pieces: seq<seq<bv8>>) returns (result: seq<bv8>)
    ensures result == Digest(Join(pieces))
  {
    hide Digest, Absorbed, Tail, Md5Ctx.Valid;
    var ctx := new Md5Ctx();
    var i := 0;
    assert pieces[..0] == [];
    while i < |pieces|
      invariant i <= |pieces| && ctx.Valid() && ctx.message == Join(pieces[..i])
      invariant fresh(ctx) && fresh(ctx.buffer)
    {
      JoinOneMore(pieces, i);
      ctx.Hash(pieces[i]);
      i := i + 1;
    }
    assert pieces[..i] == pieces;
    result := ctx.End();
  }

  /** md5sum: the file is read 256 bytes at a time. */
  method Md5Sum(file: seq<bv8>) returns (result: seq<bv8>, length: nat)
    ensures result == Digest(file) && length == |file|
  {
    hide Digest, Absorbed, Tail, Md5Ctx.Valid;
    var ctx := new Md5Ctx();
    length := 0;
    while true
      invariant length <= |file| && ctx.Valid() && ctx.message == file[..length]
      invariant fresh(ctx) && fresh(ctx.buffer)
      decreases |file| - length
    {
      var len := if |file| - length < 256 then |file| - length else 256;
      if len == 0 {
        break;
      }
      ctx.Hash(file[length..length + len]);
      assert file[..length] + file[length..length + len] == file[..length + len];
      length := length + len;
    }
    assert file[..length] == file;
    result := ctx.End();
  }
}
