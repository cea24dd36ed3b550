/** Text in the GSM alphabet: characters to septets and back, and the greedy split of a long text. */
module GsmText {
  import opened Alphabet
  import opened CTypes
  import opened Sequences

  /** (u_int16_t) of a signed char. */
  function Code(c: byte): nat
  {
    if c < 0x80 then c else 0xFF00 + c
  }

  /** A 16-bit value stored into a signed char. */
  function ToChar(v: nat): schar
  {
    if v % 256 < 128 then v % 256 else v % 256 - 256
  }

  /** The test isGSMString makes of each UTF-16 unit. */
  predicate InAlphabet(unit: nat)
  {
    IsBit7Same(unit) || GsmCode(unit) >= 0
  }

  /** A char BIT7Encoding has a code for. It takes the text char by char, so no octet from 0x80 on is one. */
  predicate Mapped(c: byte)
  {
    InAlphabet(Code(c))
  }

  predicate IsGsm(t: seq<byte>)
  {
    forall c :: c in t ==> Mapped(c)
  }

  /** What BIT7Encoding stores for one character. A missing key reads as 0xFFFF. */
  function EncodeChar(c: byte): seq<schar>
  {
    if IsBit7Same(Code(c)) then [ToChar(Code(c))]
    else
      var v := GsmCode(Code(c)) % 0x10000;
      if v > 0xFF then [ToChar(v / 256), ToChar(v % 256)] else [ToChar(v)]
  }

  function EncodeText(t: seq<byte>): seq<schar>
  {
    if t == [] then [] else EncodeChar(t[0]) + EncodeText(t[1..])
  }

  /** (u_int16_t) of a stored char. */
  function Key(v: schar): nat
  {
    if v < 0 then v + 0x10000 else v
  }

  /** Both casts of a char to 16 bits, the splitter's and the decoder's, extend its sign. */
  lemma CharsAreSigned(c: byte)
    ensures Code(c) == ToChar(c) % 0x1_0000 == Key(ToChar(c))
  {
  }

  /** One step of BIT7Decoding: the character printed and the number of septets it takes. */
  function DecodeOne(s: seq<schar>): (r: (byte, nat))
    requires s != []
    ensures 1 <= r.1 <= |s|
  {
    var key := Key(s[0]);
    if IsBit7Same(key) then (key % 256, 1)
    else if UcsCode(key) < 0 then (0x3F, 1)
    else if key == 0x1B && |s| > 1 && ExtensionCode(Key(s[1])) % 0x10000 > 0 then
      (ExtensionCode(Key(s[1])) % 256, 2)
    else (UcsCode(key) % 256, 1)
  }

  function DecodeText(s: seq<schar>): seq<byte>
  {
    if s == [] then [] else [DecodeOne(s).0] + DecodeText(s[DecodeOne(s).1..])
  }

  /** Stores what one character becomes. */
  method StoreChar(c: byte, result: array<schar>, at: nat) returns (next: nat)
    requires at + 2 <= result.Length
    modifies result
    ensures at < next <= at + 2 && result[..next] == old(result[..at]) + EncodeChar(c)
  {
    hide MapValue, IsBit7Same, ToChar;
    var code := Code(c);
    if IsBit7Same(code) {
      result[at] := ToChar(code);
      return at + 1;
    }
    var found := MapGetValue(UCS2_TO_BIT7, code);
    var value := found % 0x10000;
    if value > 0xFF {
      result[at], result[at + 1] := ToChar(value / 256), ToChar(value % 256);
      return at + 2;
    }
    result[at] := ToChar(value);
    return at + 1;
  }

  /** BIT7Encoding. */
  method Bit7Encoding(udc: seq<byte>) returns (result: array<schar>, septets: nat)
    ensures fresh(result) && septets <= result.Length
    ensures result[..septets] == EncodeText(udc)
  {
    hide EncodeText, EncodeChar;
    var len := |udc|;
    result := new schar[len * 2 + 1];
    septets := 0;
    var i := 0;
    EncodeNothing();
    assert udc[..0] == [];
    while i < len
      invariant 0 <= i <= len
      invariant septets <= 2 * i
      invariant result[..septets] == EncodeText(udc[..i])
    {
      EncodeTextSnoc(udc, i);
      septets := StoreChar(udc[i], result, septets);
      i := i + 1;
    }
    assert udc[..len] == udc;
  }

  lemma EncodeNothing()
    ensures EncodeText([]) == []
  {
  }

  /** The next character of the septets, and where the one after it starts. The entry behind an escape is looked up
      even when the escape is the last septet. */
  method NextSeptets(bit7Data: seq<schar>, i: nat, size: nat) returns (c: byte, next: nat)
    requires i < size < |bit7Data|
    ensures (c, next - i) == DecodeOne(bit7Data[i..size]) && i < next <= size
  {
    hide MapValue, IsBit7Same;
    var key := Key(bit7Data[i]);
    var found := MapGetValue(BIT7_TO_UCS2, key);
    if IsBit7Same(key) {
      return key % 256, i + 1;
    }
    if found >= 0 {
      if key == 0x1B {
        var extended := MapGetValue(BIT7E_TO_UCS2, Key(bit7Data[i + 1]));
        if i < size - 1 && extended % 0x10000 > 0 {
          return extended % 256, i + 2;
        }
      }
      return found % 256, i + 1;
    }
    return 0x3F, i + 1;
  }

  /** BIT7Decoding. */
  method Bit7Decoding(bit7Data: seq<schar>, size: nat) returns (result: seq<byte>)
    requires size < |bit7Data|
    ensures result == DecodeText(bit7Data[..size])
  {
    hide DecodeOne;
    result := [];
    var i: nat := 0;
    while i < size
      invariant i <= size
      invariant DecodeText(bit7Data[..size]) == result + DecodeText(bit7Data[i..size])
    {
      var c, next := NextSeptets(bit7Data, i, size);
      DecodeStep(bit7Data, i, next, size);
      ConcatAssociates(result, [c], DecodeText(bit7Data[next..size]));
      result := result + [c];
      i := next;
    }
  }

  lemma DecodeStep(data: seq<schar>, i: nat, next: nat, size: nat)
    requires i < size <= |data| && next - i == DecodeOne(data[i..size]).1
    ensures DecodeText(data[i..size]) == [DecodeOne(data[i..size]).0] + DecodeText(data[next..size])
  {
    hide DecodeOne;
    assert data[i..size][next - i..] == data[next..size];
  }

  lemma {:induction false} EncodeTextConcat(a: seq<byte>, b: seq<byte>)
    ensures EncodeText(a + b) == EncodeText(a) + EncodeText(b)
  {
    if a == [] {
      assert a + b == b;
    } else {
      assert (a + b)[0] == a[0] && (a + b)[1..] == a[1..] + b;
      EncodeTextConcat(a[1..], b);
    }
  }

  lemma EncodeTextSnoc(t: seq<byte>, i: nat)
    requires i < |t|
    ensures EncodeText(t[..i + 1]) == EncodeText(t[..i]) + EncodeChar(t[i])
  {
    assert t[..i + 1] == t[..i] + [t[i]];
    EncodeTextConcat(t[..i], [t[i]]);
    assert [t[i]][1..] == [];
  }

  /** The width SeptetsLength and SeptetsToChars give a character. */
  function CharSeptets(c: byte): nat
  {
    if GsmCode(Code(c)) > 0xFF then 2 else 1
  }

  /** The four kinds of character: the same code in both alphabets, ... */
  lemma SameShape(c: byte)
    requires IsBit7Same(Code(c))
    ensures Mapped(c) && EncodeChar(c) == [c] && c < 0x80 && CharSeptets(c) == 1
  {
    hide GsmCode;
    OtherCodes(c);
  }

  /** ... another single code, ... */
  lemma SingleShape(c: byte) returns (v: schar)
    requires c in {0x24, 0x40, 0x5F}
    ensures Mapped(c) && EncodeChar(c) == [v] && CharSeptets(c) == 1
    ensures 0 <= v < 0x20 && v != 0x1B && v != 0x0A && v != 0x0D && UcsCode(v) == c
  {
    hide GsmCode, UcsCode;
    SingleCodes();
    v := if c == 0x24 then 2 else if c == 0x40 then 0 else 0x11;
  }

  /** ... an escape and an extension code, ... */
  lemma EscapedShape(c: byte) returns (e: schar)
    requires c in {0x0C, 0x5B, 0x5C, 0x5D, 0x5E, 0x7B, 0x7C, 0x7D, 0x7E}
    ensures Mapped(c) && EncodeChar(c) == [0x1B, e] && CharSeptets(c) == 2
    ensures 0 <= e < 128 && ExtensionCode(e) == c
  {
    hide GsmCode, ExtensionCode;
    EscapedCodes();
    e := GsmCode(c) - 0x1B00;
    EscapedPair(c, e);
  }

  lemma EscapedPair(c: byte, e: nat)
    requires !IsBit7Same(c) && c < 0x80 && e < 128 && GsmCode(c) == 0x1B00 + e
    ensures EncodeChar(c) == [0x1B, e] && CharSeptets(c) == 2 && Mapped(c)
  {
    hide GsmCode;
    var v := 0x1B00 + e;
    assert v % 0x10000 == v && v / 256 == 0x1B && v % 256 == e;
  }

  /** ... or no code at all. */
  lemma UnmappedShape(c: byte)
    requires !IsBit7Same(Code(c))
    requires c !in {0x24, 0x40, 0x5F}
    requires c !in {0x0C, 0x5B, 0x5C, 0x5D, 0x5E, 0x7B, 0x7C, 0x7D, 0x7E}
    ensures !Mapped(c) && EncodeChar(c) == [-1, -1] && CharSeptets(c) == 1
  {
    hide GsmCode;
    OtherCodes(Code(c));
  }

  /** A mapped character is read back from its septets, whatever follows them. */
  lemma DecodeEncodedChar(c: byte, rest: seq<schar>)
    requires Mapped(c)
    ensures DecodeText(EncodeChar(c) + rest) == [c] + DecodeText(rest)
  {
    hide GsmCode, UcsCode, ExtensionCode, EncodeChar, Mapped;
    if IsBit7Same(Code(c)) {
      SameShape(c);
      assert ([c] + rest)[1..] == rest;
    } else if c in {0x24, 0x40, 0x5F} {
      var v := SingleShape(c);
      assert ([v] + rest)[1..] == rest;
    } else if c in {0x0C, 0x5B, 0x5C, 0x5D, 0x5E, 0x7B, 0x7C, 0x7D, 0x7E} {
      var e := EscapedShape(c);
      EscapeCode();
      assert ([0x1B, e] + rest)[2..] == rest;
    } else {
      UnmappedShape(c);
    }
  }

  /** So is a text of such characters. */
  lemma {:induction false} DecodeEncodedText(t: seq<byte>)
    requires IsGsm(t)
    ensures DecodeText(EncodeText(t)) == t
  {
    if t != [] {
      DecodeEncodedChar(t[0], EncodeText(t[1..]));
      DecodeEncodedText(t[1..]);
    }
  }

  lemma {:induction false} DecodedIsShorter(s: seq<schar>)
    ensures |DecodeText(s)| <= |s|
    decreases |s|
  {
    hide DecodeOne;
    if s != [] {
      DecodedIsShorter(s[DecodeOne(s).1..]);
    }
  }

  /** The septet 127 reads as the octet 0xE0. */
  lemma DecodeE0(rest: seq<schar>)
    ensures DecodeText([127, 127] + rest) == [0xE0, 0xE0] + DecodeText(rest)
  {
    hide UcsCode;
    LastCode();
    assert ([127, 127] + rest)[1..] == [127] + rest;
    assert ([127] + rest)[1..] == rest;
  }

  /** What packing and unpacking keep of the chars s: a char that is not negative and not behind a negative one is
      kept, and a negative one becomes 127. */
  ghost predicate Kept(s: seq<schar>, u: seq<schar>)
  {
    |u| == |s| && forall j :: 0 <= j < |s| ==> KeptAt(s, u, j)
  }

  ghost predicate KeptAt(s: seq<schar>, u: seq<schar>, j: nat)
    requires j < |s| == |u|
  {
    if s[j] < 0 then u[j] == 127 else (j > 0 && s[j - 1] < 0) || u[j] == s[j]
  }

  /** The septets of a text with an unmapped character never read as the text. */
  lemma {:induction false} UnmappedIsLost(t: seq<byte>, u: seq<schar>)
    requires !IsGsm(t) && Kept(EncodeText(t), u)
    ensures DecodeText(u) != t
  {
    hide EncodeChar, Mapped, DecodeText, CharSeptets, EncodeText;
    var e, s := EncodeChar(t[0]), EncodeText(t[1..]);
    EncodeTextFront(t);
    CharWidth(t[0]);
    var rest := u[|e|..];
    if Mapped(t[0]) {
      assert forall i :: 0 <= i < |e| ==> e[i] in e;
      FrontIsKept(e, s, u);
      DecodeEncodedChar(t[0], rest);
      assert forall c :: c in t ==> c == t[0] || c in t[1..];
      UnmappedIsLost(t[1..], rest);
      assert ([t[0]] + DecodeText(rest))[1..] == DecodeText(rest);
    } else {
      NegativePair(t[0]);
      BehindPair(s, u);
      DecodeE0(rest);
      RunIsLonger(t[1..], rest, 1);
      assert ([0xE0, 0xE0] + DecodeText(rest))[1..] == E0s(1) + DecodeText(rest);
    }
  }

  lemma EncodeTextFront(t: seq<byte>)
    requires t != []
    ensures EncodeText(t) == EncodeChar(t[0]) + EncodeText(t[1..])
  {
  }

  lemma FrontIsKept(e: seq<schar>, s: seq<schar>, u: seq<schar>)
    requires Kept(e + s, u) && forall i :: 0 <= i < |e| ==> e[i] >= 0
    ensures u == e + u[|e|..] && Kept(s, u[|e|..])
  {
    forall j | 0 <= j < |e|
      ensures u[j] == e[j]
    {
      assert KeptAt(e + s, u, j);
    }
    forall j | 0 <= j < |s|
      ensures KeptAt(s, u[|e|..], j)
    {
      assert KeptAt(e + s, u, |e| + j);
    }
  }

  lemma BehindPair(s: seq<schar>, u: seq<schar>)
    requires Kept([-1, -1] + s, u)
    ensures u == [127, 127] + u[2..]
    ensures forall j :: 0 <= j < |s| && s[j] < 0 ==> u[2..][j] == 127
  {
    assert KeptAt([-1, -1] + s, u, 0) && KeptAt([-1, -1] + s, u, 1);
    forall j | 0 <= j < |s| && s[j] < 0
      ensures u[2..][j] == 127
    {
      assert KeptAt([-1, -1] + s, u, j + 2);
    }
  }

  function E0s(n: nat): seq<byte>
  {
    seq(n, _ => 0xE0)
  }

  /** Unmapped octets 0xE0 of the text read as twice as many, so that more of them than the text has come first. */
  lemma {:induction false} RunIsLonger(t: seq<byte>, u: seq<schar>, n: nat)
    requires n > 0 && |u| == |EncodeText(t)|
    requires forall j :: 0 <= j < |u| && EncodeText(t)[j] < 0 ==> u[j] == 127
    ensures E0s(n) + DecodeText(u) != t
  {
    hide EncodeChar, Mapped, DecodeText, EncodeText;
    if t != [] && t[0] == 0xE0 {
      EncodeTextFront(t);
      NegativePair(0xE0);
      var rest := u[2..];
      assert forall j :: 0 <= j < |rest| ==> EncodeText(t)[j + 2] == EncodeText(t[1..])[j];
      assert u == [127, 127] + rest;
      DecodeE0(rest);
      RunIsLonger(t[1..], rest, n + 1);
      assert (E0s(n) + ([0xE0, 0xE0] + DecodeText(rest)))[1..] == E0s(n + 1) + DecodeText(rest);
    } else {
      assert (E0s(n) + DecodeText(u))[0] == 0xE0;
    }
  }

  /** An unmapped character becomes two chars -1. */
  lemma NegativePair(c: byte)
    ensures !Mapped(c) ==> EncodeChar(c) == [-1, -1]
    ensures c >= 0x80 ==> !Mapped(c)
  {
    hide GsmCode, EncodeChar, Mapped;
    if IsBit7Same(Code(c)) {
      SameShape(c);
    } else if c in {0x24, 0x40, 0x5F} {
      var v := SingleShape(c);
    } else if c in {0x0C, 0x5B, 0x5C, 0x5D, 0x5E, 0x7B, 0x7C, 0x7D, 0x7E} {
      var e := EscapedShape(c);
    } else {
      UnmappedShape(c);
    }
  }

  /** Every text becomes septets and -1. */
  lemma {:induction false} CharsAreCoded(t: seq<byte>)
    ensures forall i :: 0 <= i < |EncodeText(t)| ==> EncodeText(t)[i] >= -1
  {
    hide EncodeChar, Mapped, CharSeptets;
    if t != [] {
      CharsAreCoded(t[1..]);
      CharWidth(t[0]);
      NegativePair(t[0]);
      assert forall i :: 0 <= i < |EncodeChar(t[0])| ==> EncodeChar(t[0])[i] in EncodeChar(t[0]);
    }
  }

  /** Septets of mapped text fit in seven bits. */
  lemma {:induction false} GsmSeptets(t: seq<byte>)
    requires IsGsm(t)
    ensures forall v :: v in EncodeText(t) ==> 0 <= v < 128
  {
    if t != [] {
      GsmSeptets(t[1..]);
      CharWidth(t[0]);
    }
  }

  /** A mapped character takes as many septets as its width says; an unmapped one always takes two. */
  lemma CharWidth(c: byte)
    ensures Mapped(c) ==> forall v :: v in EncodeChar(c) ==> 0 <= v < 128
    ensures |EncodeChar(c)| == if Mapped(c) then CharSeptets(c) else 2
    ensures CharSeptets(c) == 1 || CharSeptets(c) == 2
    ensures !Mapped(c) ==> CharSeptets(c) == 1
  {
    hide GsmCode, UcsCode, ExtensionCode, EncodeChar, Mapped, CharSeptets;
    if IsBit7Same(Code(c)) {
      SameShape(c);
    } else if c in {0x24, 0x40, 0x5F} {
      var v := SingleShape(c);
    } else if c in {0x0C, 0x5B, 0x5C, 0x5D, 0x5E, 0x7B, 0x7C, 0x7D, 0x7E} {
      var e := EscapedShape(c);
    } else {
      UnmappedShape(c);
    }
  }
}
