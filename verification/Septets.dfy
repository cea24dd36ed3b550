/** Packing of 7-bit septets into octets behind the fill bits that align them to the user-data header
    (section 9.2.3.24 of 3GPP TS 23.040, section 6.1.2.1 of 3GPP TS 23.038). */
module Septets {
  import opened Bits
  import opened CTypes
  import opened Hex

  type septet = n: nat | n < 128

  /** Whole septets covered by a header of udhl octets. */
  function HeaderSeptets(udhl: nat): nat
  {
    (udhl * 8 + 6) / 7
  }

  function FillBits(udhl: nat): (fill: nat)
    ensures fill < 7
    ensures (udhl * 8 + fill) % 7 == 0
  {
    (udhl * 8 + 6) / 7 * 7 - udhl * 8
  }

  function PackedLength(count: nat, fill: nat): nat
  {
    (count * 7 + fill + 7) / 8
  }

  /** The reference bit stream: fill zeros, then the low seven bits of every char, least significant bit first, then
      zeros. */
  predicate StreamBit(s: seq<schar>, fill: nat, p: nat)
  {
    fill <= p < fill + 7 * |s| && Bit(LowOctet(s[(p - fill) / 7]), (p - fill) % 7)
  }

  /** The sign of a negative char fills the octet that starts among its bits. */
  predicate SignBit(s: seq<schar>, fill: nat, p: nat)
  {
    var start := p / 8 * 8;
    fill <= start < fill + 7 * |s| && s[(start - fill) / 7] < 0 && p >= fill + 7 * ((start - fill) / 7 + 1)
  }

  predicate PackedBit(s: seq<schar>, fill: nat, p: nat)
  {
    StreamBit(s, fill, p) || SignBit(s, fill, p)
  }

  function PackedOctet(s: seq<schar>, fill: nat, i: nat): byte
  {
    var b := seq(8, k requires 0 <= k < 8 => PackedBit(s, fill, 8 * i + k));
    FromBitsHasBits(b);
    PowersOfTwo();
    FromBits(b)
  }

  function PackOctets(s: seq<schar>, fill: nat): (r: seq<byte>)
    ensures |r| == PackedLength(|s|, fill)
  {
    seq(PackedLength(|s|, fill), i requires 0 <= i < PackedLength(|s|, fill) => PackedOctet(s, fill, i))
  }

  /** Whether bits of a negative char are left over for the last octet. */
  predicate EndsNegative(s: seq<schar>, fill: nat)
  {
    s != [] && (|s| * 7 + fill) % 8 != 0 && s[|s| - 1] < 0
  }

  /** The packed octets as they are written: of a negative rest only the first two of its eight digits are kept. */
  function WrittenOctets(s: seq<schar>, fill: nat): (r: seq<byte>)
  {
    var octets := PackOctets(s, fill);
    if EndsNegative(s, fill) then octets[..|octets| - 1] + [255] else octets
  }

  function PackedText(s: seq<schar>, fill: nat): string
  {
    PrintOctets(WrittenOctets(s, fill))
  }

  /** Bit p of a list of octets. */
  predicate OctetBit(octets: seq<byte>, p: nat)
  {
    p / 8 < |octets| && Bit(octets[p / 8], p % 8)
  }

  function UnpackedSeptet(octets: seq<byte>, fill: nat, j: nat): septet
  {
    var b := seq(7, k requires 0 <= k < 7 => OctetBit(octets, fill + 7 * j + k));
    FromBitsHasBits(b);
    PowersOfTwo();
    FromBits(b)
  }

  function UnpackSeptets(octets: seq<byte>, count: nat, fill: nat): (r: seq<septet>)
    ensures |r| == count
  {
    seq(count, j requires 0 <= j < count => UnpackedSeptet(octets, fill, j))
  }

  lemma BitsOfOctet(s: seq<schar>, fill: nat, i: nat, k: nat)
    requires k < 8
    ensures Bit(PackedOctet(s, fill, i), k) == PackedBit(s, fill, 8 * i + k)
  {
    var b := seq(8, k requires 0 <= k < 8 => PackedBit(s, fill, 8 * i + k));
    FromBitsHasBits(b);
    assert Bit(FromBits(b), k) == b[k];
  }

  lemma PackedOctetIs(n: byte, s: seq<schar>, fill: nat, i: nat)
    requires forall k: nat :: k < 8 ==> Bit(n, k) == PackedBit(s, fill, 8 * i + k)
    ensures n == PackedOctet(s, fill, i)
  {
    hide Bit, PackedBit;
    PowersOfTwo();
    FromBitsIsUnique(n, seq(8, k requires 0 <= k < 8 => PackedBit(s, fill, 8 * i + k)));
  }

  lemma UnpackedSeptetIs(n: septet, octets: seq<byte>, fill: nat, j: nat)
    requires forall k: nat :: k < 7 ==> Bit(n, k) == OctetBit(octets, fill + 7 * j + k)
    ensures n == UnpackedSeptet(octets, fill, j)
  {
    hide Bit, OctetBit;
    PowersOfTwo();
    FromBitsIsUnique(n, seq(7, k requires 0 <= k < 7 => OctetBit(octets, fill + 7 * j + k)));
  }

  /** Bit k of septet j stands at bit fill + 7j + k of the packed octets. */
  lemma PackPlacesBits(s: seq<septet>, fill: nat, j: nat, k: nat)
    requires j < |s| && k < 7
    ensures var p := fill + 7 * j + k;
            p / 8 < PackedLength(|s|, fill)
            && Bit(PackOctets(s, fill)[p / 8], p % 8) == Bit(s[j], k)
  {
    hide Bit;
    var p := fill + 7 * j + k;
    BitsOfOctet(s, fill, p / 8, p % 8);
    StreamBitAt(s, fill, j, k, p);
  }

  /** All other bits of the packed octets are zero. */
  lemma PackPadsWithZeros(s: seq<septet>, fill: nat, p: nat)
    requires p / 8 < PackedLength(|s|, fill)
    requires p < fill || p >= fill + 7 * |s|
    ensures !Bit(PackOctets(s, fill)[p / 8], p % 8)
  {
    BitsOfOctet(s, fill, p / 8, p % 8);
  }

  lemma StreamBitAt(s: seq<schar>, fill: nat, i: nat, k: nat, p: nat)
    requires i < |s| && k < 7 && p == fill + 7 * i + k
    ensures StreamBit(s, fill, p) == Bit(LowOctet(s[i]), k)
  {
    assert (p - fill) / 7 == i && (p - fill) % 7 == k;
  }

  // ---------- What unpacking makes of packed chars ----------

  /** The chars BIT7Encoding makes: septets, and -1. */
  predicate IsCoded(s: seq<schar>)
  {
    forall i :: 0 <= i < |s| ==> s[i] >= -1
  }

  /** The low bits of septet j that lie in an octet that starts before it. */
  function SharedBits(fill: nat, j: nat): (n: nat)
    ensures n < 8
  {
    var r := (fill + 7 * j) % 8; if r == 0 then 0 else 8 - r
  }

  /** What becomes of char j: -1 reads as 127 and turns the bits of the next septet in the octet they share into
      ones. */
  function Received(s: seq<schar>, fill: nat, j: nat): (r: septet)
    requires j < |s| && IsCoded(s)
  {
    if s[j] < 0 then 127
    else if j > 0 && s[j - 1] < 0 then OrLowOnes(s[j], SharedBits(fill, j))
    else s[j]
  }

  /** n with its low c bits set. */
  function OrLowOnes(n: septet, c: nat): septet
    requires c < 8
  {
    PowersOfTwo();
    Pow2Grows(c, 7);
    OrBelow(n, Pow2(c) - 1, 7);
    BitOr(n, Pow2(c) - 1)
  }

  /** Unpacking gives back every char but a -1 and the septet behind it, for every list and every fill. */
  lemma UnpackPacked(s: seq<schar>, fill: nat, j: nat)
    requires IsCoded(s) && j < |s|
    ensures UnpackSeptets(PackOctets(s, fill), |s|, fill)[j] == Received(s, fill, j)
  {
    hide Bit, BitOr, OctetBit, Received;
    forall k: nat | k < 7
      ensures Bit(Received(s, fill, j), k) == OctetBit(PackOctets(s, fill), fill + 7 * j + k)
    {
      BitOfReceived(s, fill, j, k);
      BitOfPacked(s, fill, fill + 7 * j + k);
    }
    UnpackedSeptetIs(Received(s, fill, j), PackOctets(s, fill), fill, j);
  }

  lemma BitOfPacked(s: seq<schar>, fill: nat, p: nat)
    requires p < fill + 7 * |s|
    ensures OctetBit(PackOctets(s, fill), p) == PackedBit(s, fill, p)
  {
    hide Bit, PackedBit;
    BitsOfOctet(s, fill, p / 8, p % 8);
  }

  lemma BitOfReceived(s: seq<schar>, fill: nat, j: nat, k: nat)
    requires IsCoded(s) && j < |s| && k < 7
    ensures Bit(Received(s, fill, j), k) == PackedBit(s, fill, fill + 7 * j + k)
  {
    hide Bit, BitOr, SharedBits;
    var p := fill + 7 * j + k;
    StreamBitAt(s, fill, j, k, p);
    SignBitAt(s, fill, j, k, p);
    PowersOfTwo();
    OnesBelow(7, k);
    OnesBelow(8, k);
    OnesBelow(SharedBits(fill, j), k);
    BitOfOr(if s[j] < 0 then 0 else s[j], Pow2(SharedBits(fill, j)) - 1, k);
  }

  lemma SignBitAt(s: seq<schar>, fill: nat, j: nat, k: nat, p: nat)
    requires j < |s| && k < 7 && p == fill + 7 * j + k
    ensures SignBit(s, fill, p) == (j > 0 && s[j - 1] < 0 && k < SharedBits(fill, j))
  {
    var start, first := p / 8 * 8, fill + 7 * j;
    if start >= first {
      assert (start - fill) / 7 == j;
    } else {
      assert start > p - 8 && k < SharedBits(fill, j);
      assert j > 0 ==> (start - fill) / 7 == j - 1;
    }
  }

  lemma {:induction false} OrBelow(x: nat, y: nat, n: nat)
    requires x < Pow2(n) && y < Pow2(n)
    ensures BitOr(x, y) < Pow2(n)
  {
    if n > 0 {
      OrBelow(x / 2, y / 2, n - 1);
    }
  }

  /** Unpacking what was packed gives back the septets. */
  lemma UnpackInvertsPack(s: seq<septet>, fill: nat)
    ensures UnpackSeptets(PackOctets(s, fill), |s|, fill) == s
  {
    hide UnpackSeptets, PackOctets;
    forall j | 0 <= j < |s|
      ensures UnpackSeptets(PackOctets(s, fill), |s|, fill)[j] == s[j]
    {
      UnpackPacked(s, fill, j);
    }
  }

  /** Septets and -1 are written as they are packed: a negative rest is all ones. */
  lemma WrittenAsPacked(s: seq<schar>, fill: nat)
    requires IsCoded(s)
    ensures WrittenOctets(s, fill) == PackOctets(s, fill)
  {
    hide PackOctets;
    if EndsNegative(s, fill) {
      LastIsOnes(s, fill);
    }
  }

  /** The octets are read back from their text. */
  lemma ReadInvertsPacked(pre: string, s: seq<schar>, fill: nat, post: string)
    requires IsCoded(s)
    ensures ReadOctets(pre + PackedText(s, fill) + post, |pre|, PackedLength(|s|, fill)) == PackOctets(s, fill)
  {
    hide PackOctets, PrintOctets, ReadOctets, WrittenOctets;
    WrittenAsPacked(s, fill);
    ReadInvertsPrint(pre, PackOctets(s, fill), post);
  }

  lemma LastIsOnes(s: seq<schar>, fill: nat)
    requires IsCoded(s) && EndsNegative(s, fill)
    ensures PackOctets(s, fill) != [] && PackOctets(s, fill)[|PackOctets(s, fill)| - 1] == 255
  {
    hide Bit, PackedOctet;
    var i := PackedLength(|s|, fill) - 1;
    PowersOfTwo();
    forall k: nat | k < 8
      ensures Bit(255, k) == PackedBit(s, fill, 8 * i + k)
    {
      OnesBelow(8, k);
      LastBit(s, fill, 8 * i + k);
    }
    PackedOctetIs(255, s, fill, i);
  }

  lemma LastBit(s: seq<schar>, fill: nat, p: nat)
    requires IsCoded(s) && EndsNegative(s, fill) && p / 8 == PackedLength(|s|, fill) - 1
    ensures PackedBit(s, fill, p)
  {
    hide Bit, StreamBit, SignBit;
    PowersOfTwo();
    LastStart(|s|, fill, p);
    var last := fill + 7 * (|s| - 1);
    if p < last + 7 {
      OnesBelow(8, p - last);
      StreamBitAt(s, fill, |s| - 1, p - last, p);
    } else {
      SignAt(s, fill, |s| - 1, p);
    }
  }

  /** The last octet starts among the bits of the last char. */
  lemma LastStart(n: nat, fill: nat, p: nat)
    requires n > 0 && (n * 7 + fill) % 8 != 0 && p / 8 == PackedLength(n, fill) - 1
    ensures fill + 7 * (n - 1) <= p / 8 * 8 < fill + 7 * n && p >= p / 8 * 8
  {
  }

  // ---------- The packing loop ----------

  /** x, an int of one char's range, holds the low L bits of the stream from p on, and its sign above them. */
  ghost predicate Pending(s: seq<schar>, fill: nat, p: nat, x: int, L: nat)
  {
    -128 <= x < 128
    && (L > 0 ==> forall k: nat :: k < 8 ==>
        (Bit(LowOctet(x), k) <==> (k < L && StreamBit(s, fill, p + k)) || SignBit(s, fill, p + k)))
  }

  ghost predicate ArePacked(octets: seq<byte>, s: seq<schar>, fill: nat)
  {
    forall i: nat :: i < |octets| ==> octets[i] == PackedOctet(s, fill, i)
  }

  /** x >> n of a signed number. */
  function ShiftRight(x: int, n: nat): int
  {
    x / Pow2(n)
  }

  /** The octet written when L bits are pending: ((value << L) | left) & 0xFF, of which only the low octets of value
      and left matter. */
  function PackedWord(value: int, left: int, L: nat): (n: byte)
  {
    MaskKeepsLowBits(BitOr(Shl(LowOctet(value), L), LowOctet(left)), 8, 0);
    PowersOfTwo();
    BitAnd(BitOr(Shl(LowOctet(value), L), LowOctet(left)), 0xFF)
  }

  /** One iteration of the packing loop with L pending bits: the octet it writes... */
  lemma PackOctet(s: seq<schar>, fill: nat, i: nat, m: nat, left: int, L: nat)
    requires i < |s| && 0 < L < 8
    requires fill + 7 * i == 8 * m + L
    requires Pending(s, fill, 8 * m, left, L)
    ensures PackedWord(s[i], left, L) == PackedOctet(s, fill, m)
  {
    hide Bit, BitOr, Shl, FromBits, StreamBit, SignBit, PackedOctet;
    PowersOfTwo();
    var value := LowOctet(s[i]);
    var word := BitOr(Shl(value, L), LowOctet(left));
    var n := PackedWord(s[i], left, L);
    forall k: nat | k < 8
      ensures Bit(n, k) == PackedBit(s, fill, 8 * m + k)
    {
      MaskKeepsLowBits(word, 8, k);
      BitOfOr(Shl(value, L), LowOctet(left), k);
      BitOfShl(value, L, k);
      if k >= L {
        StreamBitAt(s, fill, i, k - L, 8 * m + k);
      }
    }
    PackedOctetIs(n, s, fill, m);
  }

  /** ... and the bits it leaves pending. */
  lemma PackRest(s: seq<schar>, fill: nat, i: nat, m: nat, L: nat)
    requires i < |s| && 0 < L < 8
    requires fill + 7 * i == 8 * m + L
    ensures Pending(s, fill, 8 * (m + 1), ShiftRight(s[i], 8 - L), L - 1)
  {
    hide Bit, ShiftRight, StreamBit, SignBit;
    var rest, p := ShiftRight(s[i], 8 - L), 8 * (m + 1);
    BitOfShiftRight(s[i], 8 - L, 0);
    forall k: nat | k < 8 && L > 1
      ensures Bit(LowOctet(rest), k) <==> (k < L - 1 && StreamBit(s, fill, p + k)) || SignBit(s, fill, p + k)
    {
      BitOfShiftRight(s[i], 8 - L, k);
      SignAt(s, fill, i, p + k);
      BitOfSign(s[i]);
      if k < L - 1 {
        StreamBitAt(s, fill, i, k + 8 - L, p + k);
      }
    }
  }

  /** The octet that starts among the bits of char i. */
  lemma SignAt(s: seq<schar>, fill: nat, i: nat, p: nat)
    requires i < |s| && fill + 7 * i <= p / 8 * 8 < fill + 7 * (i + 1)
    ensures SignBit(s, fill, p) == (s[i] < 0 && p >= fill + 7 * (i + 1))
  {
    assert (p / 8 * 8 - fill) / 7 == i;
  }

  lemma BitOfSign(v: schar)
    ensures Bit(LowOctet(v), 7) == (v < 0)
  {
    hide Bit;
    PowersOfTwo();
    if v >= 0 {
      NoBitAbove(v, 7, 7);
    } else {
      SetTopBit(v + 128, 7);
    }
  }

  lemma SetTopBit(w: nat, k: nat)
    requires w < 128
    ensures Bit(w + 128, k) == (k == 7 || Bit(w, k))
  {
    hide Bit, BitOr;
    PowersOfTwo();
    AddBelowIsOr(1, 7, w);
    BitOfOr(Shl(1, 7), w, k);
    ShlIsMul(1, 7);
    BitOfShl(1, 7, k);
    BitOfOne(k);
  }

  lemma BitOfOne(k: nat)
    ensures k >= 7 ==> Bit(1, k - 7) == (k == 7)
  {
    if k > 7 {
      BitOfZero(k - 8);
    }
  }

  /** The bits of v / 2, rounded down. */
  lemma BitOfHalf(v: schar, k: nat)
    requires k < 8
    ensures Bit(LowOctet(v / 2), k) == if k < 7 then Bit(LowOctet(v), k + 1) else v < 0
  {
    hide Bit;
    PowersOfTwo();
    NextBit(LowOctet(v), k);
    if v < 0 {
      assert LowOctet(v / 2) == LowOctet(v) / 2 + 128;
      SetTopBit(LowOctet(v) / 2, k);
    } else if k == 7 {
      NoBitAbove(v / 2, 7, 7);
    }
  }

  lemma {:induction false} BitOfShiftRight(v: schar, c: nat, k: nat)
    requires c < 8 && k < 8
    ensures -128 <= ShiftRight(v, c) < 128
    ensures Bit(LowOctet(ShiftRight(v, c)), k) == if k + c < 8 then Bit(LowOctet(v), k + c) else v < 0
    decreases c
  {
    hide Bit;
    if c > 0 {
      HalvesOf(v, c);
      BitOfShiftRight(v / 2, c - 1, k);
      if k + c <= 8 {
        BitOfHalf(v, k + c - 1);
      }
    }
  }

  lemma HalvesOf(v: int, c: nat)
    requires c > 0
    ensures ShiftRight(v, c) == ShiftRight(v / 2, c - 1)
  {
    var p := Pow2(c - 1);
    var q, r := v / 2 / p, v / 2 % p;
    assert v == (2 * p) * q + (2 * r + v % 2);
    FloorIs(v, 2 * p, q, 2 * r + v % 2);
  }

  lemma FloorIs(x: int, d: nat, q: int, r: nat)
    requires d > 0 && r < d && x == d * q + r
    ensures x / d == q
  {
    MulAtLeast(d, x / d - q);
    assert d * (x / d - q) == d * (x / d) - d * q;
  }

  lemma MulAtLeast(d: int, k: int)
    requires d > 0
    ensures k >= 1 ==> d * k >= d
    ensures k <= -1 ==> d * k <= -d
  {
  }

  lemma PackIndex(i: nat, fill: nat, m: nat, L: nat)
    requires L < 8 && fill < 8 && fill + 7 * i == 8 * m + L
    ensures (i + 8 - fill) % 8 == if L == 0 then 0 else 8 - L
  {
    assert i + 8 - fill == 8 * (i - m + 1) - L;
  }

  lemma PackEnd(n: nat, fill: nat, m: nat, L: nat)
    requires L < 8 && fill + 7 * n == 8 * m + L
    ensures (n * 7 + fill) % 8 == L
    ensures PackedLength(n, fill) == if L == 0 then m else m + 1
  {
  }

  /** The iteration that finds no pending bits. */
  lemma PackStart(s: seq<schar>, fill: nat, i: nat, m: nat)
    requires i < |s| && fill + 7 * i == 8 * m
    ensures Pending(s, fill, 8 * m, s[i], 7)
  {
    hide Bit, StreamBit, SignBit;
    BitOfSign(s[i]);
    forall k: nat | k < 8
      ensures Bit(LowOctet(s[i]), k) <==> (k < 7 && StreamBit(s, fill, 8 * m + k)) || SignBit(s, fill, 8 * m + k)
    {
      SignAt(s, fill, i, 8 * m + k);
      if k < 7 {
        StreamBitAt(s, fill, i, k, 8 * m + k);
      }
    }
  }

  /** The state of the packing loop before char i: octets written, L bits pending in left. */
  ghost predicate Packing(s: seq<schar>, fill: nat, i: nat, octets: seq<byte>, left: int, L: nat)
  {
    && i <= |s|
    && L < 8
    && fill + 7 * i == 8 * |octets| + L
    && ArePacked(octets, s, fill)
    && Pending(s, fill, 8 * |octets|, left, L)
  }

  lemma PackFirst(s: seq<schar>, fill: nat)
    requires fill < 7
    ensures Packing(s, fill, 0, [], 0, fill)
  {
    BitOfZeroUpTo(8);
  }

  lemma PackAdvance(s: seq<schar>, fill: nat, i: nat, octets: seq<byte>, left: int, L: nat)
    requires Packing(s, fill, i, octets, left, L) && i < |s|
    ensures L == 0 ==> Packing(s, fill, i + 1, octets, s[i], 7)
    ensures L > 0 ==>
              Packing(s, fill, i + 1, octets + [PackedWord(s[i], left, L)], ShiftRight(s[i], 8 - L), L - 1)
  {
    hide Pending;
    if L == 0 {
      PackStart(s, fill, i, |octets|);
    } else {
      PackOctet(s, fill, i, |octets|, left, L);
      PackRest(s, fill, i, |octets|, L);
      PackedSnoc(octets, PackedWord(s[i], left, L), s, fill);
      assert |octets + [PackedWord(s[i], left, L)]| == |octets| + 1;
    }
  }

  /** BIT7Pack: the chars packed behind the fill bits of a header of udhl octets, printed in hexadecimal. */
  method Bit7Pack(chars: seq<schar>, udhl: nat) returns (result: string)
    ensures result == PackedText(chars, FillBits(udhl))
  {
    hide Packing, PackedWord, ShiftRight, PackOctets, EndsNegative, PrintHex, PrintOctets, WrittenOctets;
    var fillBits := FillBits(udhl);
    var len := |chars|;
    result := "";
    var buf: nat := 0;
    var left: int := 0;
    ghost var octets: seq<byte> := [];
    ghost var L: nat := fillBits;
    PackFirst(chars, fillBits);
    NoOctets();
    var i := 0;
    while i < len
      invariant 0 <= i <= len && L < 8 && fillBits + 7 * i == 8 * |octets| + L
      invariant Packing(chars, fillBits, i, octets, left, L)
      invariant result == PrintOctets(octets) && buf == |result|
    {
      var value := chars[i];
      var index := (i + 8 - fillBits) % 8;
      PackIndex(i, fillBits, |octets|, L);
      PackAdvance(chars, fillBits, i, octets, left, L);
      if index == 0 {
        left, L := value, 7;
      } else {
        var n := PackedWord(value, left, 8 - index);
        PrintOctetsSnoc(octets, n);
        KeptDigits(n);
        result, buf := PrintAt(result, buf, PrintHex(n, 2)), buf + 2;
        left, octets, L := ShiftRight(value, index), octets + [n], L - 1;
      }
      i := i + 1;
    }
    PackEnd(len, fillBits, |octets|, L);
    if (len * 7 + fillBits) % 8 != 0 {
      LastOctet(chars, fillBits, octets, left, L);
      PrintOctetsSnoc(octets, KeptOctet(left));
      KeptDigits(left);
      result, buf := PrintAt(result, buf, PrintHex(left, 2)), buf + 2;
      assert result[..buf] == PrintOctets(octets) + TwoDigits(left);
    } else {
      AllPacked(octets, chars, fillBits, left);
    }
    result := result[..buf];
  }

  lemma NoOctets()
    ensures PrintOctets([]) == ""
  {
  }

  lemma AllPacked(octets: seq<byte>, s: seq<schar>, fill: nat, left: int)
    requires Packing(s, fill, |s|, octets, left, 0)
    ensures octets == WrittenOctets(s, fill)
  {
    hide PackedOctet;
    PackEnd(|s|, fill, |octets|, 0);
  }

  lemma PackedSnoc(octets: seq<byte>, n: byte, s: seq<schar>, fill: nat)
    requires ArePacked(octets, s, fill) && n == PackedOctet(s, fill, |octets|)
    ensures ArePacked(octets + [n], s, fill)
  {
  }

  lemma BitOfZeroUpTo(n: nat)
    ensures forall k :: 0 <= k < n ==> !Bit(0, k)
    ensures 0 < Pow2(n)
  {
    forall k | 0 <= k < n
      ensures !Bit(0, k)
    {
      BitOfZero(k);
    }
  }

  /** The number left over at the end is the last octet, in two's complement. */
  lemma LastOctet(s: seq<schar>, fill: nat, octets: seq<byte>, left: int, L: nat)
    requires Packing(s, fill, |s|, octets, left, L) && 0 < L
    ensures -128 <= left < 128
    ensures octets + [KeptOctet(left)] == WrittenOctets(s, fill)
  {
    hide Bit, PackedOctet;
    var m := |octets|;
    PackEnd(|s|, fill, m, L);
    BitOfSign(left);
    if s != [] {
      SignAt(s, fill, |s| - 1, 8 * m + 7);
    }
    forall k: nat | k < 8
      ensures Bit(LowOctet(left), k) == PackedBit(s, fill, 8 * m + k)
    {
    }
    PackedOctetIs(LowOctet(left), s, fill, m);
    PackedSnoc(octets, LowOctet(left), s, fill);
    assert octets + [LowOctet(left)] == PackOctets(s, fill);
    assert left < 0 <==> EndsNegative(s, fill);
  }

  lemma {:induction false} Pow2Grows(m: nat, n: nat)
    requires m <= n
    ensures Pow2(m) <= Pow2(n)
  {
    if m < n {
      Pow2Grows(m, n - 1);
    }
  }

  /** Two chars -1 and no fill bits: sixteen ones. */
  lemma PackedNegatives()
    ensures PackedText([-1, -1], 0) == "FFFF"
  {
    hide PackedOctet, PrintHex, PrintOctets, WrittenOctets;
    var s: seq<schar> := [-1, -1];
    LastIsOnes(s, 0);
    FirstIsOnes();
    WrittenAsPacked(s, 0);
    assert PackOctets(s, 0) == ([] + [255]) + [255];
    NoOctets();
    PrintOctetsSnoc([], 255);
    PrintOctetsSnoc([] + [255], 255);
    PrintTwo(255);
    assert HexDigit(15) == 'F';
  }

  lemma FirstIsOnes()
    ensures PackedOctet([-1, -1], 0, 0) == 255
  {
    hide Bit;
    PowersOfTwo();
    forall k: nat | k < 8
      ensures Bit(255, k) == PackedBit([-1, -1], 0, 8 * 0 + k)
    {
      OnesBelow(8, k);
      if k < 7 {
        StreamBitAt([-1, -1], 0, 0, k, k);
      }
    }
    PackedOctetIs(255, [-1, -1], 0, 0);
  }

  // ---------- The unpacking loop ----------

  /** The low L bits of x are the data bits from p on, and x has no others. */
  ghost predicate PendingOctetBits(octets: seq<byte>, p: nat, x: nat, L: nat)
  {
    x < Pow2(L) && forall k: nat :: k < L ==> Bit(x, k) == OctetBit(octets, p + k)
  }

  ghost predicate AreUnpacked(r: seq<nat>, octets: seq<byte>, fill: nat)
  {
    forall j: nat :: j < |r| ==> r[j] == UnpackedSeptet(octets, fill, j)
  }

  /** The state of the unpacking loop before octet i: n septets written, L bits pending in left. */
  ghost predicate Unpacking(octets: seq<byte>, fill: nat, i: nat, r: seq<nat>, left: nat, L: nat)
  {
    && L <= 7
    && 8 * i == fill + 7 * |r| + L
    && AreUnpacked(r, octets, fill)
    && PendingOctetBits(octets, 8 * i - L, left, L)
  }

  /** The septet written when L bits are pending: ((value << L) + left) & 0x7F. */
  function UnpackedWord(value: nat, left: nat, L: nat): (n: septet)
  {
    MaskKeepsLowBits(Shl(value, L) + left, 7, 0);
    PowersOfTwo();
    BitAnd(Shl(value, L) + left, 0x7F)
  }

  lemma UnpackWord(octets: seq<byte>, fill: nat, i: nat, j: nat, left: nat, L: nat)
    requires i < |octets|
    requires L < 7 && 8 * i == fill + 7 * j + L
    requires PendingOctetBits(octets, 8 * i - L, left, L)
    ensures UnpackedWord(octets[i], left, L) == UnpackedSeptet(octets, fill, j)
  {
    hide Bit, BitOr, Shl, Shr, FromBits;
    var value := octets[i];
    var n := UnpackedWord(value, left, L);
    var b := seq(7, k requires 0 <= k < 7 => OctetBit(octets, fill + 7 * j + k));
    PowersOfTwo();
    AddBelowIsOr(value, L, left);
    forall k | 0 <= k < 7
      ensures Bit(n, k) == b[k]
    {
      MaskKeepsLowBits(BitOr(Shl(value, L), left), 7, k);
      BitOfOr(Shl(value, L), left, k);
      BitOfShl(value, L, k);
      if k >= L {
        NoBitAbove(left, L, k);
        BitOfOctet(octets, i, k - L, fill + 7 * j + k);
      }
      assert b[k] == OctetBit(octets, fill + 7 * j + k);
    }
    FromBitsIsUnique(n, b);
  }

  /** Dropping the c low bits of an octet leaves its 8 - c high bits. */
  lemma Leftover(octets: seq<byte>, i: nat, c: nat)
    requires i < |octets|
    requires c <= 8
    ensures PendingOctetBits(octets, 8 * i + c, Shr(octets[i], c), 8 - c)
  {
    var value := octets[i];
    PowersOfTwo();
    ShrBelow(value, c, 8 - c);
    var rest := Shr(value, c);
    forall k: nat | k < 8 - c
      ensures Bit(rest, k) == OctetBit(octets, 8 * i + c + k)
    {
      BitOfShr(value, c, k);
      BitOfOctet(octets, i, c + k, 8 * i + c + k);
    }
  }

  lemma BitOfOctet(octets: seq<byte>, i: nat, k: nat, p: nat)
    requires i < |octets|
    requires k < 8 && p == 8 * i + k
    ensures OctetBit(octets, p) == Bit(octets[i], k)
  {
    assert p / 8 == i && p % 8 == k;
  }

  /** Seven pending bits are a whole septet. */
  lemma WholeSeptet(octets: seq<byte>, fill: nat, j: nat, left: nat)
    requires PendingOctetBits(octets, fill + 7 * j, left, 7)
    ensures left == UnpackedSeptet(octets, fill, j)
  {
    var b := seq(7, k requires 0 <= k < 7 => OctetBit(octets, fill + 7 * j + k));
    FromBitsIsUnique(left, b);
  }

  lemma UnpackedSnoc(r: seq<nat>, n: nat, octets: seq<byte>, fill: nat)
    requires AreUnpacked(r, octets, fill) && n == UnpackedSeptet(octets, fill, |r|)
    ensures AreUnpacked(r + [n], octets, fill)
  {
  }

  lemma NothingPending(octets: seq<byte>, p: nat)
    ensures PendingOctetBits(octets, p, 0, 0)
  {
  }

  lemma UnpackOrder(i: nat, fill: nat, n: nat, L: nat)
    requires L < 7 && fill < 7 && 8 * i == fill + 7 * n + L
    ensures (i + (7 - fill)) % 7 == L
  {
    assert i + (7 - fill) == 7 * (n - i + 1) + L;
  }

  lemma RoomForSeptet(i: nat, count: nat, fill: nat, n: nat, L: nat)
    ensures 8 * i == fill + 7 * n + L && L < 7 ==> (i < PackedLength(count, fill) <==> n < count)
  {
  }

  lemma UnpackAdvance(octets: seq<byte>, fill: nat, i: nat, r: seq<nat>, left: nat, L: nat)
    requires i < |octets|
    requires Unpacking(octets, fill, i, r, left, L) && L < 7
    ensures var value := octets[i];
            Unpacking(octets, fill, i + 1, r + [UnpackedWord(value, left, L)], Shr(value, 7 - L), L + 1)
  {
    var n := UnpackedWord(octets[i], left, L);
    UnpackWord(octets, fill, i, |r|, left, L);
    UnpackedSnoc(r, n, octets, fill);
    Leftover(octets, i, 7 - L);
    assert |r + [n]| == |r| + 1;
  }

  lemma UnpackStart(octets: seq<byte>)
    ensures Unpacking(octets, 0, 0, [], 0, 0)
  {
  }

  /** The first octet when it starts with fill bits. */
  lemma UnpackFirst(octets: seq<byte>, fill: nat)
    requires |octets| > 0
    requires 0 < fill < 7
    ensures Unpacking(octets, fill, 1, [], Shr(octets[0], fill), 8 - fill)
  {
    Leftover(octets, 0, fill);
  }

  lemma UnpackWhole(octets: seq<byte>, fill: nat, i: nat, r: seq<nat>, left: nat)
    requires Unpacking(octets, fill, i, r, left, 7)
    ensures Unpacking(octets, fill, i, r + [left], 0, 0) && left < 128
  {
    WholeSeptet(octets, fill, |r|, left);
    UnpackedSnoc(r, left, octets, fill);
    assert |r + [left]| == |r| + 1;
    NothingPending(octets, 8 * i);
  }

  /** BIT7Unpack: count septets read from the octets printed at character index of data, fillBits bits in.
      The buffer has one entry more than the septets; that entry is never written. */
  method Bit7Unpack(data: string, index: nat, count: nat, fillBits: nat) returns (result: array<schar>)
    requires fillBits < 7
    ensures fresh(result) && result.Length == count + 1
    ensures result[..count]
         == UnpackSeptets(ReadOctets(data, index, PackedLength(count, fillBits)), count, fillBits)
  {
    hide UnpackedSeptet, OctetBit, PendingOctetBits, AreUnpacked, Shr, BitAnd, Shl, UnpackedWord, UnpackSeptets;
    hide PackedLength, ReadOctets, ReadOctetAt;
    result := new schar[count + 1];
    var packLen := PackedLength(count, fillBits);
    ghost var octets := ReadOctets(data, index, packLen);
    var n, left: nat := 0, 0;
    ghost var r, L: nat := [], 0;
    UnpackStart(octets);
    NothingToUnpack(count, fillBits);
    var i := 0;
    while i < packLen
      invariant 0 <= i <= packLen && n <= count && result[..n] == r && L < 7
      invariant i == 0 ==> n == 0 && left == 0 && L == 0
      invariant i > 0 || fillBits == 0 ==> Unpacking(octets, fillBits, i, r, left, L)
    {
      var order := (i + (7 - fillBits)) % 7;
      var value := ReadOctetAt(data, index, i);
      OctetRead(data, index, packLen, i);
      if i != 0 || fillBits == 0 {
        UnpackOrder(i, fillBits, n, L);
        RoomForSeptet(i, count, fillBits, n, L);
        UnpackAdvance(octets, fillBits, i, r, left, L);
        r := r + [UnpackedWord(value, left, order)];
        result[n] := UnpackedWord(value, left, order);
        n := n + 1;
      } else {
        UnpackFirst(octets, fillBits);
        assert order == 7 - fillBits;
      }
      left, L := Shr(value, 7 - order), order + 1;
      assert Unpacking(octets, fillBits, i + 1, r, left, L) && result[..n] == r;
      if order == 6 {
        if n == count {
          break;
        }
        UnpackWhole(octets, fillBits, i + 1, r, left);
        r := r + [left];
        result[n] := left;
        n := n + 1;
        left, L := 0, 0;
      }
      i := i + 1;
    }
    RoomForSeptet(i, count, fillBits, n, L);
    AllUnpacked(r, octets, fillBits);
  }

  lemma NothingToUnpack(count: nat, fill: nat)
    ensures PackedLength(count, fill) == 0 ==> count == 0 && fill == 0
  {
  }

  lemma OctetRead(data: string, index: nat, count: nat, i: nat)
    requires i < count
    ensures ReadOctets(data, index, count)[i] == ReadOctetAt(data, index, i)
  {
  }

  lemma AllUnpacked(r: seq<nat>, octets: seq<byte>, fill: nat)
    requires AreUnpacked(r, octets, fill)
    ensures r == UnpackSeptets(octets, |r|, fill)
  {
  }
}
