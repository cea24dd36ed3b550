/** The user data of one short message: length octet, header and packed text (section 9.2.3.24 of
    3GPP TS 23.040), printed in hexadecimal and read back. */
module UserData {
  import opened CTypes
  import opened Hex
  import opened Septets
  import opened GsmText
  import opened GsmSplit
  import opened UserHeader
  import opened UtfSpec
  import opened UtfLaws
  import opened UtfConvert
  import opened Ucs2Text

  datatype Coding = Bit7 | Ucs2

  /** Text UCS2 coding is for: UTF-8 by the RFC, of characters of the basic multilingual plane. */
  ghost predicate IsUcs2(text: seq<byte>)
  {
    RfcText(text) && IsBmp(CodePoints(Utf8, text))
  }

  /** Text the encoder takes: any octets as 7-bit text, whose unmapped characters it does not refuse. */
  ghost predicate IsCodable(text: seq<byte>, coding: Coding)
  {
    match coding
    case Bit7 => true
    case Ucs2 => IsUcs2(text)
  }

  /** Text of the alphabet of its coding. */
  ghost predicate IsText(text: seq<byte>, coding: Coding)
  {
    match coding
    case Bit7 => IsGsm(text)
    case Ucs2 => IsUcs2(text)
  }

  ghost function UnitsOf(text: seq<byte>): seq<unit>
    requires IsUcs2(text)
  {
    CodePoints(Utf8, text)
  }

  /** The coded text behind a header of udhl octets, and its length in septets (7-bit) or octets (UCS2). */
  ghost function Content(text: seq<byte>, udhl: nat, coding: Coding): string
    requires IsCodable(text, coding)
  {
    if text == [] then ""
    else
      match coding
      case Bit7 => PackedText(EncodeText(text), FillBits(udhl))
      case Ucs2 => PrintUnits(UnitsOf(text))
  }

  ghost function ContentLength(text: seq<byte>, coding: Coding): nat
    requires IsCodable(text, coding)
  {
    match coding
    case Bit7 => |EncodeText(text)|
    case Ucs2 => 2 * |CodePoints(Utf8, text)|
  }

  /** The value of the length octet: whole septets including the header for 7-bit text, octets for UCS2. */
  ghost function UserDataLength(text: seq<byte>, udhs: seq<Element>, coding: Coding): nat
    requires IsCodable(text, coding)
  {
    (match coding case Bit7 => HeaderSeptets(HeaderLength(udhs)) case Ucs2 => HeaderLength(udhs))
    + ContentLength(text, coding)
  }

  ghost function EncodedUserData(text: seq<byte>, udhs: seq<Element>, coding: Coding): string
    requires IsCodable(text, coding)
  {
    PrintHex(UserDataLength(text, udhs, coding), 2) + EncodedHeader(udhs) + Content(text, HeaderLength(udhs), coding)
  }

  /** UDCEncoding. */
  method UdcEncoding(udc: seq<byte>, udhl: nat, coding: Coding) returns (body: string, udcl: nat)
    requires IsCodable(udc, coding)
    ensures body == Content(udc, udhl, coding) && udcl == ContentLength(udc, coding)
  {
    hide PrintHex, PackedText, RfcText, EncodeText, CodePoints, PrintUnits, PrintOctets;
    if udc == [] {
      EmptyText();
      return "", 0;
    }
    if coding == Bit7 {
      var coded, septets := Bit7Encoding(udc);
      udcl := septets;
      body := Bit7Pack(coded[..septets], udhl);
    } else {
      body, udcl := Ucs2Encoding(udc);
    }
  }

  /** The UCS2 branch of UDCEncoding. */
  method Ucs2Encoding(udc: seq<byte>) returns (body: string, udcl: nat)
    requires IsUcs2(udc)
    ensures body == PrintUnits(UnitsOf(udc)) && udcl == 2 * |CodePoints(Utf8, udc)|
  {
    hide PrintHex, PrintUnits, RfcText, CodePoints, Transcode, Patched, Encode;
    ghost var units := UnitsOf(udc);
    var len := Utf8Len(udc);
    var code := new nat[len];
    RfcTextIsRead(udc);
    BmpUnits(units);
    WellFormedConverts(Utf8, Utf16, units, len);
    ghost var before := code[..];
    var status, read, written := ConvertUtf8ToUtf16(udc, code, 0, len);
    PatchedWhole(before, units);
    assert code[..] == units;
    udcl := len * 2;
    body := PrintCode(code);
  }

  method PrintCode(code: array<nat>) returns (body: string)
    requires forall i :: 0 <= i < code.Length ==> code[i] < 0x1_0000
    ensures body == PrintUnits(code[..])
  {
    hide PrintHex, PrintUnits;
    ghost var units: seq<unit> := code[..];
    body := "";
    NoUnits();
    var i := 0;
    while i < code.Length
      invariant 0 <= i <= code.Length
      invariant body == PrintUnits(units[..i])
    {
      assert units[..i + 1] == units[..i] + [code[i]];
      PrintUnitsSnoc(units[..i], code[i]);
      body := body + PrintHex(code[i], 4);
      i := i + 1;
    }
    assert units[..i] == units;
  }

  lemma PatchedWhole(before: seq<nat>, out: seq<nat>)
    requires |out| == |before|
    ensures Patched(before, 0, out) == out
  {
  }

  lemma EmptyText()
    ensures EncodeText([]) == [] && CodePoints(Utf8, []) == []
  {
  }

  lemma NoUnits()
    ensures PrintUnits([]) == ""
  {
  }

  /** UDEncoding. */
  method UdEncoding(ud: seq<byte>, udhs: seq<Element>, coding: Coding) returns (result: string)
    requires IsCodable(ud, coding)
    ensures result == EncodedUserData(ud, udhs, coding)
  {
    hide PrintHex, Content, ContentLength, EncodedHeader, HeaderLength;
    var header, udhl := UdhEncoding(udhs);
    var body, udcl := UdcEncoding(ud, udhl, coding);
    var udl := if coding == Bit7 then HeaderSeptets(udhl) + udcl else udhl + udcl;
    result := PrintHex(udl, 2) + header + body;
  }

  /** Characters the header takes in the text read by UserDataDecoding, from its length octet. */
  function HeaderRead(data: string, index: nat, udhi: bool): nat
  {
    if udhi then ReadHex(data, index + 2, 2) + 1 else 0
  }

  /** The 7-bit text UserDataDecoding reads from character index on. */
  function DecodedBit7(data: string, index: nat, udhi: bool): seq<byte>
    requires HeaderSeptets(HeaderRead(data, index, udhi)) <= ReadHex(data, index, 2)
  {
    var udhl := HeaderRead(data, index, udhi);
    var count := ReadHex(data, index, 2) - HeaderSeptets(udhl);
    var fill := FillBits(udhl);
    DecodeText(UnpackSeptets(ReadOctets(data, index + 2 + 2 * udhl, PackedLength(count, fill)), count, fill))
  }

  function UnitCount(data: string, index: nat, udhi: bool): nat
  {
    var udl, udhl := ReadHex(data, index, 2), HeaderRead(data, index, udhi);
    if udl < udhl then 0 else (udl - udhl) / 2
  }

  /** The UCS2 text UserDataDecoding reads. */
  function DecodedUcs2(data: string, index: nat, udhi: bool): seq<nat>
  {
    DecodedUnits(data, index + 2 + 2 * HeaderRead(data, index, udhi), UnitCount(data, index, udhi))
  }

  /** The 7-bit branch of UserDataDecoding. */
  method DecodeBit7(data: string, index: nat, udhi: bool) returns (result: seq<byte>)
    requires HeaderSeptets(HeaderRead(data, index, udhi)) <= ReadHex(data, index, 2)
    ensures result == DecodedBit7(data, index, udhi)
  {
    hide ReadHex, UnpackSeptets, ReadOctets, DecodeText;
    var udl := ReadHex(data, index, 2);
    var next, udhl: nat := index + 2, 0;
    if udhi {
      udhl := ReadHex(data, next, 2);
      udhl := udhl + 1;
      next := next + udhl * 2;
    }
    var septets := udl - (udhl * 8 + 6) / 7;
    var fillBits := (udhl * 8 + 6) / 7 * 7 - udhl * 8;
    var unpacked := Bit7Unpack(data, next, septets, fillBits);
    result := Bit7Decoding(unpacked[..], septets);
    assert unpacked[..][..septets] == unpacked[..septets];
  }

  /** The UCS2 branch of UserDataDecoding: every unit is converted by itself, behind the text so far. */
  method DecodeUcs2(data: string, index: nat, udhi: bool) returns (result: seq<nat>)
    ensures result == DecodedUcs2(data, index, udhi)
  {
    hide ReadHex, Encode8, Transcode, Patched, Utf8OfUnit, DecodedUnits;
    var udl := ReadHex(data, index, 2);
    var next, udhl: nat := index + 2, 0;
    if udhi {
      udhl := ReadHex(data, next, 2) + 1;
      next := next + udhl * 2;
    }
    var len := if udl < udhl then 0 else (udl - udhl) / 2;
    var buffer := new nat[len * 3];
    var size: nat := 0;
    var i := 0;
    DecodedUnitsStep(data, next, 0);
    while i < len
      invariant 0 <= i <= len && size <= 3 * i
      invariant buffer[..size] == DecodedUnits(data, next, i)
    {
      ReadFourIsUnit(data, next + 4 * i);
      var code := ReadHex(data, next + 4 * i, 4);
      ghost var before := buffer[..];
      var source := if code == 0 then [] else [code];
      OneUnit(code, len * 3 - size);
      DecodedUnitsStep(data, next, i);
      PatchedFront(before, size, Utf8OfUnit(code));
      var status, read, end := ConvertUtf32ToUtf8(source, buffer, size, len * 3);
      size := if status == ConversionOK then end else size;
      i := i + 1;
    }
    result := buffer[..size];
  }

  /** utf32toutf8 on one code below 0x10000: a zero code is an empty string to it. */
  lemma OneUnit(code: nat, room: nat)
    requires code < 0x1_0000 && room >= 3
    ensures AreUnits(Utf32, if code == 0 then [] else [code])
    ensures var run := Transcode(Utf32, Utf8, if code == 0 then [] else [code], room);
            && run.out == Utf8OfUnit(code) && |run.out| <= 3
            && (run.status == ConversionOK || run.out == [])
  {
    assert [code][1..] == [];
  }

  lemma DecodedUnitsStep(data: string, index: nat, i: nat)
    ensures DecodedUnits(data, index, 0) == []
    ensures DecodedUnits(data, index, i + 1)
         == DecodedUnits(data, index, i) + Utf8OfUnit(ReadHex(data, index + 4 * i, 4))
  {
    hide ReadHex, Utf8OfUnit;
  }

  lemma PatchedFront(before: seq<nat>, start: nat, out: seq<nat>)
    requires start + |out| <= |before|
    ensures Patched(before, start, out)[..start + |out|] == before[..start] + out
    ensures |Patched(before, start, out)| == |before|
  {
  }

  // ---------- What is encoded is decoded ----------

  /** The text in front of the content. */
  ghost function Front(pre: string, udl: nat, udhs: seq<Element>): string
  {
    pre + PrintHex(udl, 2) + EncodedHeader(udhs)
  }

  lemma HeaderIsFound(pre: string, udl: nat, udhs: seq<Element>, rest: string)
    requires udl < 256 && HasItsLength(udhs)
    ensures var data := Front(pre, udl, udhs) + rest;
            && ReadHex(data, |pre|, 2) == udl
            && HeaderRead(data, |pre|, udhs != []) == HeaderLength(udhs)
            && |Front(pre, udl, udhs)| == |pre| + 2 + 2 * HeaderLength(udhs)
            && (udhs != [] ==> DecodedElements(data, |pre| + 4, 0, UdhLength(udhs)) == ElementsRead(udhs))
  {
    hide PrintHex, ReadHex, PrintChars, DecodedElements, HeaderChars, ElementsRead;
    var data := Front(pre, udl, udhs) + rest;
    ReadTwo(pre, udl, EncodedHeader(udhs) + rest);
    assert data == pre + PrintHex(udl, 2) + (EncodedHeader(udhs) + rest);
    if udhs != [] {
      HeaderLengthIsExact(udhs);
      HeaderDecoded(pre + PrintHex(udl, 2), udhs, rest);
    }
  }

  lemma ContentStands(pre: string, text: seq<byte>, udhs: seq<Element>, coding: Coding, post: string)
    requires IsCodable(text, coding)
    ensures pre + EncodedUserData(text, udhs, coding) + post
         == Front(pre, UserDataLength(text, udhs, coding), udhs)
            + (Content(text, HeaderLength(udhs), coding) + post)
  {
    hide PrintHex, Content, EncodedHeader, UserDataLength;
  }

  /** The septets behind fill bits that are read from the packed text. */
  ghost function ReceivedText(text: seq<byte>, fill: nat): (u: seq<septet>)
    ensures |u| == |EncodeText(text)| && Kept(EncodeText(text), u)
  {
    CharsAreCoded(text);
    var s := EncodeText(text);
    seq(|s|, j requires 0 <= j < |s| => Received(s, fill, j))
  }

  lemma Bit7ContentRead(front: string, text: seq<byte>, udhl: nat, post: string)
    ensures var count, fill := |EncodeText(text)|, FillBits(udhl);
            var data := front + (Content(text, udhl, Bit7) + post);
            UnpackSeptets(ReadOctets(data, |front|, PackedLength(count, fill)), count, fill) == ReceivedText(text, fill)
  {
    hide PackOctets, EncodeText, PackedText, ReadOctets, UnpackSeptets, Received, Kept;
    if text == [] {
      EmptyText();
    } else {
      var s, fill := EncodeText(text), FillBits(udhl);
      CharsAreCoded(text);
      ReadInvertsPacked(front, s, fill, post);
      forall j | 0 <= j < |s|
        ensures UnpackSeptets(PackOctets(s, fill), |s|, fill)[j] == ReceivedText(text, fill)[j]
      {
        UnpackPacked(s, fill, j);
      }
      assert front + (PackedText(s, fill) + post) == front + PackedText(s, fill) + post;
    }
  }

  /** For every text, of the alphabet or not: the septets read from its user data, wherever it stands. */
  lemma Bit7Decoded(pre: string, text: seq<byte>, udhs: seq<Element>, post: string)
    requires HasItsLength(udhs)
    requires UserDataLength(text, udhs, Bit7) < 256
    ensures var data := pre + EncodedUserData(text, udhs, Bit7) + post;
            && HeaderSeptets(HeaderRead(data, |pre|, udhs != [])) <= ReadHex(data, |pre|, 2)
            && DecodedBit7(data, |pre|, udhs != []) == DecodeText(ReceivedText(text, FillBits(HeaderLength(udhs))))
            && (udhs != [] ==> DecodedElements(data, |pre| + 4, 0, UdhLength(udhs)) == ElementsRead(udhs))
  {
    hide PrintHex, ReadHex, EncodeText, EncodedHeader, DecodedElements, Content, HeaderRead, DecodeText;
    hide UnpackSeptets, ReadOctets, PackedLength, FillBits, HeaderLength, UdhLength, ReceivedText, Front;
    var udl, udhl := UserDataLength(text, udhs, Bit7), HeaderLength(udhs);
    var rest := Content(text, udhl, Bit7) + post;
    ContentStands(pre, text, udhs, Bit7, post);
    HeaderIsFound(pre, udl, udhs, rest);
    Bit7ContentRead(Front(pre, udl, udhs), text, udhl, post);
  }

  /** 7-bit user data is decoded to its text, wherever it stands, exactly when every character is in the alphabet. */
  lemma Bit7RoundTrip(pre: string, text: seq<byte>, udhs: seq<Element>, post: string)
    requires HasItsLength(udhs)
    requires UserDataLength(text, udhs, Bit7) < 256
    ensures var data := pre + EncodedUserData(text, udhs, Bit7) + post;
            && HeaderSeptets(HeaderRead(data, |pre|, udhs != [])) <= ReadHex(data, |pre|, 2)
            && (DecodedBit7(data, |pre|, udhs != []) == text <==> IsGsm(text))
            && (udhs != [] ==> DecodedElements(data, |pre| + 4, 0, UdhLength(udhs)) == ElementsRead(udhs))
  {
    hide EncodedUserData, DecodedBit7, DecodedElements, HeaderRead, ReadHex, DecodeText, ReceivedText, EncodeText;
    Bit7Decoded(pre, text, udhs, post);
    var u := ReceivedText(text, FillBits(HeaderLength(udhs)));
    if IsGsm(text) {
      GsmSeptets(text);
      AllKept(EncodeText(text), u);
      DecodeEncodedText(text);
    } else {
      UnmappedIsLost(text, u);
    }
  }

  lemma AllKept(s: seq<schar>, u: seq<schar>)
    requires Kept(s, u) && forall v :: v in s ==> v >= 0
    ensures u == s
  {
    forall j | 0 <= j < |s|
      ensures u[j] == s[j]
    {
      assert KeptAt(s, u, j) && s[j] in s && (j > 0 ==> s[j - 1] in s);
    }
  }

  /** isGSMString lets every ASCII text through, but a backtick is not in the alphabet: it is packed as ones, and read
      as two octets 0xE0. */
  lemma BacktickIsLost()
    ensures EncodedUserData([0x60], [], Bit7) == "02FFFF"
    ensures HeaderRead("02FFFF", 0, false) == 0 && ReadHex("02FFFF", 0, 2) == 2
    ensures DecodedBit7("02FFFF", 0, false) == [0xE0, 0xE0]
  {
    hide ReadHex, DecodedBit7, DecodeText, PrintHex, EncodedUserData, ReceivedText, EncodeText, UserDataLength;
    hide HeaderRead, Content, Front, FillBits, PackedText, HeaderSeptets;
    BacktickUserData();
    NoHeader();
    NoHeaderInFront(2);
    TwoPrints();
    assert "" + "02FFFF" + "" == "02FFFF" == "02" + "FFFF";
    Bit7Decoded("", [0x60], [], "");
    HeaderIsFound("", 2, [], "FFFF");
    EncodedBacktick();
    var u := ReceivedText([0x60], 0);
    assert KeptAt([-1, -1], u, 0) && KeptAt([-1, -1], u, 1);
    assert u == [127, 127] + [];
    DecodeE0([]);
    NothingDecodes();
  }

  lemma BacktickUserData()
    ensures EncodedUserData([0x60], [], Bit7) == "02FFFF" && UserDataLength([0x60], [], Bit7) == 2
  {
    hide PrintHex, PackedText, EncodeText, FillBits, HeaderSeptets, HeaderLength, EncodedHeader;
    EncodedBacktick();
    PackedNegatives();
    TwoPrints();
    NoHeader();
    assert EncodedHeader([]) == "" by { EmptyHeader(); }
    assert Content([0x60], 0, Bit7) == "FFFF";
  }

  lemma TwoPrints()
    ensures PrintHex(2, 2) == "02"
  {
    hide PrintHex;
    PrintTwo(2);
  }

  lemma EmptyHeader()
    ensures EncodedHeader([]) == ""
  {
  }

  lemma NoHeader()
    ensures HeaderLength([]) == 0 && FillBits(0) == 0 && HeaderSeptets(0) == 0
  {
  }

  lemma NoHeaderInFront(udl: nat)
    ensures Front("", udl, []) == PrintHex(udl, 2)
  {
    hide PrintHex, EncodedHeader;
    EmptyHeader();
  }

  lemma NothingDecodes()
    ensures DecodeText([]) == []
  {
  }

  lemma EncodedBacktick()
    ensures EncodeText([0x60]) == [-1, -1]
  {
    EncodeTextFront([0x60]);
    EncodeNothing();
    UnmappedShape(0x60);
  }

  /** What UserDataDecoding reads as 7-bit text, if the length octet covers the header, is the text. */
  predicate ReadsAs(data: string, index: nat, udhi: bool, text: seq<byte>)
  {
    && HeaderSeptets(HeaderRead(data, index, udhi)) <= ReadHex(data, index, 2)
    && DecodedBit7(data, index, udhi) == text
  }

  /** A length of three digits is cut to its first two, which leaves too little of a long text. */
  lemma LengthIsCut(pre: string, text: seq<byte>, udhs: seq<Element>, post: string)
    requires 0x100 <= UserDataLength(text, udhs, Bit7) < 0x1000
    requires UserDataLength(text, udhs, Bit7) / 16 < |text|
    ensures !ReadsAs(pre + EncodedUserData(text, udhs, Bit7) + post, |pre|, udhs != [], text)
  {
    hide PrintHex, ReadHex, EncodedHeader, Content, HeaderRead, DecodedBit7, UserDataLength;
    var udl := UserDataLength(text, udhs, Bit7);
    var data := pre + EncodedUserData(text, udhs, Bit7) + post;
    var rest := EncodedHeader(udhs) + Content(text, HeaderLength(udhs), Bit7) + post;
    ReadTwoOfThree(pre, udl, rest);
    assert data == pre + PrintHex(udl, 2) + rest;
    if ReadsAs(data, |pre|, udhs != [], text) {
      AtMostAnnounced(data, |pre|, udhs != []);
    }
  }

  lemma AtMostAnnounced(data: string, index: nat, udhi: bool)
    requires HeaderSeptets(HeaderRead(data, index, udhi)) <= ReadHex(data, index, 2)
    ensures |DecodedBit7(data, index, udhi)| <= ReadHex(data, index, 2)
  {
    hide ReadHex, HeaderRead, UnpackSeptets, ReadOctets, DecodeText, PackedLength, FillBits, HeaderSeptets;
    var udhl := HeaderRead(data, index, udhi);
    var count, fill := ReadHex(data, index, 2) - HeaderSeptets(udhl), FillBits(udhl);
    var octets := ReadOctets(data, index + 2 + 2 * udhl, PackedLength(count, fill));
    DecodedIsShorter(UnpackSeptets(octets, count, fill));
  }

  lemma UnitsRead(front: string, text: seq<byte>, udhl: nat, post: string)
    requires IsUcs2(text)
    ensures DecodedUnits(front + (Content(text, udhl, Ucs2) + post), |front|, |CodePoints(Utf8, text)|) == text
  {
    hide CodePoints, PrintUnits, RfcText, Encode;
    var units := UnitsOf(text);
    RfcTextIsRead(text);
    if text == [] {
      EmptyText();
      NoUnits();
    }
    UnitsRoundTrip(front, units, post, |units|);
    assert units[..|units|] == units;
    assert front + (PrintUnits(units) + post) == front + PrintUnits(units) + post;
  }

  /** UCS2 user data is decoded to its text. */
  lemma Ucs2RoundTrip(pre: string, text: seq<byte>, udhs: seq<Element>, post: string)
    requires IsUcs2(text) && HasItsLength(udhs)
    requires UserDataLength(text, udhs, Ucs2) < 256
    ensures var data := pre + EncodedUserData(text, udhs, Ucs2) + post;
            && DecodedUcs2(data, |pre|, udhs != []) == text
            && (udhs != [] ==> DecodedElements(data, |pre| + 4, 0, UdhLength(udhs)) == ElementsRead(udhs))
  {
    hide PrintHex, ReadHex, CodePoints, EncodedHeader, DecodedElements, DecodedUnits, Content, HeaderRead, RfcText;
    hide Front, HeaderLength, HeaderSeptets, HasItsLength, EncodedUserData, UdhLength, IsUcs2;
    var udl, udhl := UserDataLength(text, udhs, Ucs2), HeaderLength(udhs);
    ContentStands(pre, text, udhs, Ucs2, post);
    HeaderIsFound(pre, udl, udhs, Content(text, udhl, Ucs2) + post);
    UnitsRead(Front(pre, udl, udhs), text, udhl, post);
  }
}
