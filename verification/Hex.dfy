/** The hexadecimal text a PDU is made of: what printf writes for "%02X" and "%04X", and what
    strtol(sub_str(data, start, size), NULL, 16) reads back. */
module Hex {
  import opened CTypes
  import opened Sequences

  function HexDigit(n: nat): (c: char)
    requires n < 16
  {
    (if n < 10 then '0' as nat + n else 'A' as nat + n - 10) as char
  }

  /** The value of a hexadecimal digit, or 16 for any other character. */
  function HexValue(c: char): (v: nat)
    ensures v <= 16
  {
    if '0' <= c <= '9' then c as nat - '0' as nat
    else if 'A' <= c <= 'F' then c as nat - 'A' as nat + 10
    else if 'a' <= c <= 'f' then c as nat - 'a' as nat + 10
    else 16
  }

  function Digits(n: nat): string
  {
    if n < 16 then [HexDigit(n)] else Digits(n / 16) + [HexDigit(n % 16)]
  }

  function Zeros(n: nat): string
  {
    seq(n, _ => '0')
  }

  function Pad(s: string, width: nat): (r: string)
    ensures |r| >= width
  {
    if |s| >= width then s else Zeros(width - |s|) + s
  }

  /** printf("%0<width>X", v): the argument is converted to a 32-bit unsigned number first. */
  function PrintHex(v: int, width: nat): (s: string)
    ensures |s| >= width
  {
    Pad(Digits(v % 0x1_0000_0000), width)
  }

  /** strtol in base 16 on an unsigned numeral: the longest prefix of digits. */
  function Strtol(s: string, acc: nat := 0): nat
  {
    if s == "" || HexValue(s[0]) == 16 then acc else Strtol(s[1..], 16 * acc + HexValue(s[0]))
  }

  /** sub_str: at most size characters from start; everything from start when size is negative. */
  function SubStr(data: string, start: nat, size: int): string
  {
    if start > |data| then ""
    else if size < 0 || start + size > |data| then data[start..]
    else data[start..start + size]
  }

  function ReadHex(data: string, start: nat, size: nat): nat
  {
    Strtol(SubStr(data, start, size))
  }

  lemma ReadTwoIsOctet(data: string, start: nat)
    ensures ReadHex(data, start, 2) < 256
  {
    var s := SubStr(data, start, 2);
    if s != "" && HexValue(s[0]) < 16 {
      StrtolOne(s[1..], HexValue(s[0]));
    }
  }

  lemma StrtolOne(s: string, acc: nat)
    requires |s| <= 1
    ensures Strtol(s, acc) <= 16 * acc + 15
  {
    if |s| == 1 {
      assert s[1..] == "";
    }
  }

  lemma StrtolTwo(s: string, acc: nat)
    requires |s| <= 2
    ensures Strtol(s, acc) <= 256 * acc + 255
  {
    if s != "" {
      StrtolOne(s[1..], 16 * acc + HexValue(s[0]));
    }
  }

  lemma StrtolThree(s: string, acc: nat)
    requires |s| <= 3
    ensures Strtol(s, acc) <= 4096 * acc + 4095
  {
    if s != "" {
      StrtolTwo(s[1..], 16 * acc + HexValue(s[0]));
    }
  }

  lemma ReadFourIsUnit(data: string, start: nat)
    ensures ReadHex(data, start, 4) < 0x1_0000
  {
    var s := SubStr(data, start, 4);
    if s != "" {
      StrtolThree(s[1..], HexValue(s[0]));
    }
  }

  lemma DigitRoundTrip(n: nat)
    requires n < 16
    ensures HexValue(HexDigit(n)) == n
  {
  }

  lemma DigitsSnoc(n: nat, k: nat)
    requires k > 0
    ensures Pad(Digits(n), k + 1) == Pad(Digits(n / 16), k) + [HexDigit(n % 16)]
  {
    if n < 16 {
      assert Digits(n / 16) == "0";
      assert Pad([HexDigit(n)], k + 1) == Zeros(k - 1) + "0" + [HexDigit(n)];
    } else {
      assert Digits(n) == Digits(n / 16) + [HexDigit(n % 16)];
    }
  }

  lemma PrintTwo(v: nat)
    requires v < 256
    ensures PrintHex(v, 2) == [HexDigit(v / 16), HexDigit(v % 16)]
  {
    hide PrintHex, Digits, HexDigit;
    PrintIsPad(v, 2);
    DigitsSnoc(v, 1);
    OneDigit(v / 16);
  }

  lemma PrintIsPad(v: nat, width: nat)
    requires v < 0x1_0000_0000
    ensures PrintHex(v, width) == Pad(Digits(v), width)
  {
    hide Digits, Pad;
  }

  lemma PrintFour(a: nat, b: nat, c: nat, d: nat)
    requires a < 16 && b < 16 && c < 16 && d < 16
    ensures PrintHex(4096 * a + 256 * b + 16 * c + d, 4) == [HexDigit(a), HexDigit(b), HexDigit(c), HexDigit(d)]
  {
    hide PrintHex, Digits, Pad, HexDigit;
    var v1 := 16 * a + b;
    var v2 := 16 * v1 + c;
    var v3 := 16 * v2 + d;
    assert v3 / 16 == v2 && v2 / 16 == v1 && v1 / 16 == a;
    PrintIsPad(v3, 4);
    DigitsSnoc(v3, 3);
    DigitsSnoc(v2, 2);
    DigitsSnoc(v1, 1);
    OneDigit(a);
  }

  lemma OneDigit(a: nat)
    requires a < 16
    ensures Pad(Digits(a), 1) == [HexDigit(a)]
  {
  }

  /** What "%02X" prints for an octet is read back by a two-digit read, wherever it stands. */
  lemma ReadTwo(pre: string, v: nat, post: string)
    requires v < 256
    ensures |PrintHex(v, 2)| == 2
    ensures ReadHex(pre + PrintHex(v, 2) + post, |pre|, 2) == v
  {
    PrintTwo(v);
    var a, b := HexDigit(v / 16), HexDigit(v % 16);
    DigitRoundTrip(v / 16);
    DigitRoundTrip(v % 16);
    assert SubStr(pre + PrintHex(v, 2) + post, |pre|, 2) == [a, b];
    assert [a, b][1..] == [b] && [b][1..] == "";
    assert Strtol([a, b]) == Strtol([b], HexValue(a)) == Strtol("", 16 * HexValue(a) + HexValue(b));
  }

  /** A number of three digits is cut to its first two by a two-digit read. */
  lemma ReadTwoOfThree(pre: string, v: nat, post: string)
    requires 0x100 <= v < 0x1000
    ensures ReadHex(pre + PrintHex(v, 2) + post, |pre|, 2) == v / 16
  {
    hide PrintHex, ReadHex, Digits, HexDigit;
    PrintIsPad(v, 2);
    PrintIsPad(v / 16, 2);
    DigitsSnoc(v, 2);
    ThreeDigits(v);
    PadNothing(v / 16);
    ReadTwo(pre, v / 16, [HexDigit(v % 16)] + post);
    assert pre + (PrintHex(v / 16, 2) + [HexDigit(v % 16)]) + post
        == pre + PrintHex(v / 16, 2) + ([HexDigit(v % 16)] + post);
  }

  lemma ThreeDigits(v: nat)
    requires 0x100 <= v < 0x1000
    ensures |Digits(v)| == 3 && |Digits(v / 16)| == 2
  {
    DigitCount(v, 2);
    DigitCount(v / 16, 1);
  }

  lemma PadNothing(v: nat)
    ensures |Digits(v)| == 2 ==> Pad(Digits(v), 2) == Digits(v)
  {
  }

  lemma StrtolFour(a: char, b: char, c: char, d: char)
    requires HexValue(a) < 16 && HexValue(b) < 16 && HexValue(c) < 16 && HexValue(d) < 16
    ensures Strtol([a, b, c, d]) == 4096 * HexValue(a) + 256 * HexValue(b) + 16 * HexValue(c) + HexValue(d)
  {
    assert [a, b, c, d][1..] == [b, c, d] && [b, c, d][1..] == [c, d] && [c, d][1..] == [d] && [d][1..] == "";
    var x := HexValue(a);
    var y := 16 * x + HexValue(b);
    var z := 16 * y + HexValue(c);
    assert Strtol([a, b, c, d]) == Strtol([b, c, d], x);
    assert Strtol([b, c, d], x) == Strtol([c, d], y);
    assert Strtol([c, d], y) == Strtol([d], z);
    assert Strtol([d], z) == Strtol("", 16 * z + HexValue(d));
  }

  lemma ReadFour(pre: string, v: nat, post: string)
    requires v < 0x10000
    ensures |PrintHex(v, 4)| == 4
    ensures ReadHex(pre + PrintHex(v, 4) + post, |pre|, 4) == v
  {
    var a, b, c, d := v / 4096, v / 256 % 16, v / 16 % 16, v % 16;
    FourDigits(v);
    PrintFour(a, b, c, d);
    DigitRoundTrip(a);
    DigitRoundTrip(b);
    DigitRoundTrip(c);
    DigitRoundTrip(d);
    assert SubStr(pre + PrintHex(v, 4) + post, |pre|, 4) == PrintHex(v, 4);
    StrtolFour(HexDigit(a), HexDigit(b), HexDigit(c), HexDigit(d));
  }

  lemma FourDigits(v: nat)
    requires v < 0x10000
    ensures v == 4096 * (v / 4096) + 256 * (v / 256 % 16) + 16 * (v / 16 % 16) + v % 16
  {
    assert v / 16 / 16 == v / 256 && v / 256 / 16 == v / 4096;
  }

  /** A negative char prints as eight digits, not two: six times F and those of its low octet. */
  lemma NegativePrints(v: int)
    requires -128 <= v < 0
    ensures PrintHex(v, 2) == "FFFFFF" + PrintHex(v % 256, 2)
  {
    var u, low := v + 0x1_0000_0000, v + 256;
    assert v % 256 == low && v % 0x1_0000_0000 == u;
    assert u / 16 / 16 == 0xFFFFFF && u % 16 == low % 16 && u / 16 % 16 == low / 16;
    SixDigits();
    assert Digits(u / 16) == Digits(u / 16 / 16) + [HexDigit(u / 16 % 16)];
    assert Digits(u) == Digits(u / 16) + [HexDigit(u % 16)];
    PrintTwo(low);
  }

  /** sprintf(buf, ...) where buf stands at character at: the NUL behind the text cuts off what stood there. */
  function PrintAt(buffer: string, at: nat, text: string): string
    requires at <= |buffer|
  {
    buffer[..at] + text
  }

  /** What stays of a number printed with "%02X" when only its first two characters are kept. */
  function TwoDigits(v: int): (s: string)
    ensures |s| == 2
  {
    PrintHex(v, 2)[..2]
  }

  /** The octet these two characters stand for. */
  function KeptOctet(v: int): byte
    requires -128 <= v < 256
  {
    if v < 0 then 255 else v
  }

  lemma KeptDigits(v: int)
    requires -128 <= v < 256
    ensures TwoDigits(v) == PrintHex(KeptOctet(v), 2)
    ensures |PrintHex(v, 2)| == if v < 0 then 8 else 2
  {
    hide PrintHex, Digits;
    if v < 0 {
      NegativePrints(v);
      PrintTwo(v % 256);
      PrintTwo(255);
      assert HexDigit(15) == 'F';
    } else {
      PrintTwo(v);
    }
  }

  lemma SixDigits()
    ensures Digits(0xFFFFFF) == "FFFFFF"
  {
    assert Digits(0xFF) == "FF";
    assert Digits(0xFFF) == "FFF";
    assert Digits(0xFFFF) == "FFFF";
    assert Digits(0xFFFFF) == "FFFFF";
  }

  lemma {:induction false} DigitCount(n: nat, k: nat)
    requires Pow16(k) <= n < Pow16(k + 1)
    ensures |Digits(n)| == k + 1
  {
    if k > 0 {
      DigitCount(n / 16, k - 1);
    }
  }

  function Pow16(k: nat): (r: nat)
    ensures r > 0
  {
    if k == 0 then 1 else 16 * Pow16(k - 1)
  }

  /** The text of a list of octets. */
  function PrintOctets(octets: seq<byte>): (s: string)
  {
    if octets == [] then "" else PrintOctets(octets[..|octets| - 1]) + PrintHex(octets[|octets| - 1], 2)
  }

  lemma {:induction false} PrintOctetsLength(octets: seq<byte>)
    ensures |PrintOctets(octets)| == 2 * |octets|
  {
    if octets != [] {
      PrintOctetsLength(octets[..|octets| - 1]);
      PrintTwo(octets[|octets| - 1]);
    }
  }

  lemma {:induction false} PrintOctetsConcat(a: seq<byte>, b: seq<byte>)
    ensures PrintOctets(a + b) == PrintOctets(a) + PrintOctets(b)
  {
    hide PrintHex;
    if b == [] {
      assert a + b == a;
    } else {
      hide PrintOctets;
      var b', o := b[..|b| - 1], b[|b| - 1];
      PrintOctetsConcat(a, b');
      assert a + b == (a + b') + [o] && b == b' + [o];
      PrintOctetsSnoc(a + b', o);
      PrintOctetsSnoc(b', o);
      ConcatAssociates(PrintOctets(a), PrintOctets(b'), PrintHex(o, 2));
    }
  }

  lemma PrintOctetsSnoc(a: seq<byte>, o: byte)
    ensures PrintOctets(a + [o]) == PrintOctets(a) + PrintHex(o, 2)
  {
    hide PrintHex;
    assert (a + [o])[..|a + [o]| - 1] == a;
  }

  lemma PrintOctetsAround(a: seq<byte>, o: byte, b: seq<byte>)
    ensures PrintOctets(a + [o] + b) == PrintOctets(a) + PrintHex(o, 2) + PrintOctets(b)
  {
    PrintOctetsConcat(a + [o], b);
    PrintOctetsSnoc(a, o);
  }

  lemma ReadOctetAround(pre: string, a: seq<byte>, o: byte, b: seq<byte>, post: string)
    ensures ReadHex(pre + PrintOctets(a + [o] + b) + post, |pre| + 2 * |a|, 2) == o
  {
    hide ReadHex, PrintOctets, PrintHex;
    PrintOctetsLength(a);
    PrintOctetsAround(a, o, b);
    ReadTwo(pre + PrintOctets(a), o, PrintOctets(b) + post);
    Regroup(pre, PrintOctets(a), PrintHex(o, 2), PrintOctets(b), post);
  }

  /** Octet i of the printed list is read back at character 2i. */
  lemma ReadOctet(pre: string, octets: seq<byte>, post: string, i: nat)
    requires i < |octets|
    ensures ReadHex(pre + PrintOctets(octets) + post, |pre| + 2 * i, 2) == octets[i]
  {
    hide ReadHex, PrintOctets;
    SplitAt(octets, i);
    ReadOctetAround(pre, octets[..i], octets[i], octets[i + 1..], post);
  }

  /** The count octets printed from character index on. */
  function ReadOctets(data: string, index: nat, count: nat): (r: seq<byte>)
    ensures |r| == count
  {
    seq(count, i requires 0 <= i < count => ReadOctetAt(data, index, i))
  }

  function ReadOctetAt(data: string, index: nat, i: nat): byte
  {
    ReadTwoIsOctet(data, index + 2 * i);
    ReadHex(data, index + 2 * i, 2)
  }

  lemma ReadInvertsPrint(pre: string, octets: seq<byte>, post: string)
    ensures ReadOctets(pre + PrintOctets(octets) + post, |pre|, |octets|) == octets
  {
    forall i | 0 <= i < |octets|
      ensures ReadOctetAt(pre + PrintOctets(octets) + post, |pre|, i) == octets[i]
    {
      ReadOctet(pre, octets, post, i);
    }
  }

  lemma SplitAt<T>(s: seq<T>, i: nat)
    requires i < |s|
    ensures s[..i] + [s[i]] + s[i + 1..] == s
  {
  }

  lemma Regroup(pre: string, a: string, x: string, b: string, post: string)
    ensures pre + (a + x + b) + post == (pre + a) + x + (b + post)
  {
  }
}
