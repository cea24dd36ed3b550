/** Splitting a text over short messages and encoding each with a concatenation element (section 9.2.3.24.1 of
    3GPP TS 23.040): the messages fit, and decoding them in order gives the text back. */
module LongMessage {
  import opened Alphabet
  import Bits
  import opened CTypes
  import opened Wrappers
  import opened Hex
  import opened Septets
  import opened Sequences
  import opened GsmText
  import opened GsmSplit
  import opened UserHeader
  import opened UtfSpec
  import opened UtfLaws
  import opened UtfConvert
  import opened Ucs2Text
  import opened UserData

  /** The width of the message reference in the concatenation element. */
  datatype RefSize = Bit8Ref | Bit16Ref

  /** The caller's user-data header: NULL, or a list of elements. */
  datatype Header = NoHeader | Elements(list: seq<Element>)

  function ListOf(header: Header): seq<Element>
  {
    if header.NoHeader? then [] else header.list
  }

  /** strlen of an IED that is followed by a NUL. */
  function StrLen(ied: seq<schar>): (n: nat)
    ensures n <= |ied| && (n == |ied| <==> forall i :: 0 <= i < |ied| ==> ied[i] != 0)
  {
    if ied == [] || ied[0] == 0 then 0 else 1 + StrLen(ied[1..])
  }

  function CountedElements(list: seq<Element>): nat
  {
    if list == [] then 0 else CountedElements(list[..|list| - 1]) + StrLen(list[|list| - 1].ied) + 2
  }

  /** The header length getUDHL counts, with strlen. */
  function CountedLength(header: Header): nat
  {
    if header.NoHeader? then 0 else 1 + CountedElements(header.list)
  }

  /** getUDHL. */
  method GetUdhl(header: Header) returns (udhl: nat)
    ensures udhl == CountedLength(header)
  {
    if header.NoHeader? {
      return 0;
    }
    udhl := 1;
    var i := 0;
    while i < |header.list|
      invariant 0 <= i <= |header.list|
      invariant udhl == 1 + CountedElements(header.list[..i])
    {
      assert header.list[..i + 1][..i] == header.list[..i];
      udhl := udhl + StrLen(header.list[i].ied) + 2;
      i := i + 1;
    }
    assert header.list[..i] == header.list;
  }

  /** Septets (7-bit) or characters (UCS2) that fit behind a header of udhl octets. */
  function Room(udhl: nat, coding: Coding): int
  {
    match coding
    case Bit7 => 160 - HeaderSeptets(udhl)
    case Ucs2 => (140 - udhl) / 2
  }

  /** The header length once a concatenation element is added. */
  function WithReference(udhl: nat, size: RefSize): nat
  {
    (if udhl == 0 then 1 else udhl) + if size == Bit8Ref then 5 else 6
  }

  ghost function Width(text: seq<byte>, coding: Coding): nat
  {
    match coding
    case Bit7 => TextSeptets(text)
    case Ucs2 => |CodePoints(Utf8, text)|
  }

  /** The text from pos on, cut after every room characters. */
  ghost function Ucs2Segments(text: seq<byte>, pos: nat, room: nat): seq<seq<byte>>
    requires pos <= |text| && RfcText(text[pos..]) && room >= 1
    decreases |text| - pos
  {
    if CharCount(text, pos) <= room then [text[pos..]]
    else
      EndOfTakes(text, pos, room);
      EndAdvances(text, pos, room);
      [text[pos..EndOf(text, pos, room)]] + Ucs2Segments(text, EndOf(text, pos, room), room)
  }

  lemma EndAdvances(text: seq<byte>, pos: nat, num: nat)
    requires pos <= |text| && RfcText(text[pos..]) && num >= 1 && CharCount(text, pos) > 0
    ensures EndOf(text, pos, num) > pos
  {
    hide RfcText, Decode8;
    NoCodePoints(text[pos..]);
    CharCountStep(text, pos);
  }

  /** What UDCSplit needs of the text: UTF-8 to count characters, and room for its widest character. */
  ghost predicate SplitDefined(text: seq<byte>, header: Header, coding: Coding, size: RefSize)
  {
    var more := Room(WithReference(CountedLength(header), size), coding);
    && (coding == Ucs2 ==> RfcText(text))
    && (coding == Bit7 && more >= 1 && Width(text, coding) > Room(CountedLength(header), coding)
        ==> CanSplit(text, more))
  }

  /** The parts UDCSplit returns, or None where it returns NULL. */
  ghost function SplitOf(text: seq<byte>, header: Header, coding: Coding, size: RefSize): Option<seq<seq<byte>>>
    requires SplitDefined(text, header, coding, size)
  {
    var room := Room(CountedLength(header), coding);
    var more := Room(WithReference(CountedLength(header), size), coding);
    if room < 1 then (if text == [] then Some([text]) else None)
    else if Width(text, coding) <= room then Some([text])
    else if more < 1 then None
    else
      assert text[0..] == text;
      match coding
      case Bit7 => Some(Segments(text, more))
      case Ucs2 => Some(Ucs2Segments(text, 0, more))
  }

  const MAX_SMS_NR := 32

  /** UDCSplit. The table of parts has MAX_SMS_NR entries. */
  method UdcSplit(udc: seq<byte>, header: Header, coding: Coding, size: RefSize) returns (parts: Option<seq<seq<byte>>>)
    requires SplitDefined(udc, header, coding, size)
    requires var split := SplitOf(udc, header, coding, size); split.Some? ==> |split.value| <= MAX_SMS_NR
    ensures parts == SplitOf(udc, header, coding, size)
  {
    hide RfcText, CodePoints, TextSeptets, Segments, Ucs2Segments, CountedLength;
    var udhl := GetUdhl(header);
    var room := Room(udhl, coding);
    if room < 1 {
      return if udc == [] then Some([udc]) else None;
    }
    var width := CountWidth(udc, coding);
    if width <= room {
      return Some([udc]);
    }
    udhl := WithReference(udhl, size);
    room := Room(udhl, coding);
    if room < 1 {
      return None;
    }
    assert udc[0..] == udc;
    var data := new seq<byte>[MAX_SMS_NR](_ => []);
    var total: nat;
    if coding == Bit7 {
      total := SplitBit7(udc, room, data);
    } else {
      total := SplitUcs2(udc, room, width, data);
    }
    parts := Some(data[..total]);
  }

  method CountWidth(udc: seq<byte>, coding: Coding) returns (width: nat)
    requires coding == Ucs2 ==> RfcText(udc)
    ensures width == Width(udc, coding)
  {
    if coding == Bit7 {
      width := SeptetsLength(udc);
    } else {
      width := Utf8Len(udc);
    }
  }

  method StorePart(data: array<seq<byte>>, total: nat, part: seq<byte>)
    requires total < data.Length
    modifies data
    ensures data[..total + 1] == old(data[..total]) + [part]
  {
    data[total] := part;
  }

  /** The 7-bit loop of UDCSplit. */
  method SplitBit7(udc: seq<byte>, room: nat, data: array<seq<byte>>) returns (total: nat)
    requires CanSplit(udc, room) && |Segments(udc, room)| <= data.Length
    modifies data
    ensures total <= data.Length && data[..total] == Segments(udc, room)
  {
    assert room >= 1;
    hide MaxFit, CharSeptets, Segments, CanSplit;
    total := 0;
    NoSegments(room);
    var i := 0;
    var len := |udc|;
    assert udc[0..] == udc;
    while i < len
      invariant 0 <= i <= len && CanSplit(udc[i..], room) && total <= data.Length
      invariant Segments(udc, room) == data[..total] + Segments(udc[i..], room)
      decreases len - i
    {
      var step := SeptetsToChars(udc, i, room);
      Bit7Step(udc, i, step, room);
      ghost var before := data[..total];
      MoreSegments(before, Segments(udc[i..], room), data.Length);
      var part := if i + step < len then udc[i..i + step] else udc[i..];
      assert part == udc[i..i + step];
      StorePart(data, total, part);
      ConcatAssociates(before, [part], Segments(udc[i + step..], room));
      total := total + 1;
      i := i + step;
    }
    assert udc[i..] == [];
  }

  lemma NoSegments(room: nat)
    ensures CanSplit([], room) ==> Segments([], room) == []
  {
  }

  lemma Bit7Step(text: seq<byte>, i: nat, step: nat, room: nat)
    requires i < |text| && CanSplit(text[i..], room) && step == MaxFit(text[i..], room)
    ensures 0 < step <= |text| - i && CanSplit(text[i + step..], room)
    ensures Segments(text[i..], room) == [text[i..i + step]] + Segments(text[i + step..], room)
  {
    hide MaxFit, CharSeptets;
    FirstCharFits(text[i..], room);
    assert text[i..][..step] == text[i..i + step] && text[i..][step..] == text[i + step..];
  }

  /** The UCS2 loop of UDCSplit over a text of len characters. */
  method SplitUcs2(udc: seq<byte>, room: nat, len: nat, data: array<seq<byte>>) returns (total: nat)
    requires RfcText(udc) && RfcText(udc[0..]) && room >= 1 && len == |CodePoints(Utf8, udc)| > 0
    requires |Ucs2Segments(udc, 0, room)| <= data.Length
    modifies data
    ensures total <= data.Length && data[..total] == Ucs2Segments(udc, 0, room)
  {
    hide RfcText, CodePoints, EndOf, Ucs2Segments;
    total := 0;
    var index, i := 0, 0;
    assert udc[0..] == udc;
    while i < len
      invariant 0 <= index <= |udc| && 0 <= i && RfcText(udc[index..]) && total <= data.Length
      invariant i < len ==> CharCount(udc, index) == len - i
      invariant Ucs2Segments(udc, 0, room) == data[..total] + if i < len then Ucs2Segments(udc, index, room) else []
      decreases len - i
    {
      ghost var before := data[..total];
      ghost var segments := Ucs2Segments(udc, index, room);
      Ucs2Step(udc, index, room);
      MoreSegments(before, segments, data.Length);
      var realSize;
      if i + room < len {
        realSize := Utf8GetSize(udc, index, room);
        StorePart(data, total, udc[index..index + realSize]);
        ConcatAssociates(before, [udc[index..index + realSize]], Ucs2Segments(udc, index + realSize, room));
      } else {
        realSize := Utf8GetSize(udc, index, len - i);
        StorePart(data, total, udc[index..]);
        EndOfTakes(udc, index, len - i);
      }
      total := total + 1;
      index := index + realSize;
      i := i + room;
    }
  }

  lemma MoreSegments<T>(before: seq<T>, segments: seq<T>, n: nat)
    requires |before + segments| <= n && segments != []
    ensures |before| < n
  {
  }

  lemma Ucs2Step(text: seq<byte>, pos: nat, room: nat)
    requires pos <= |text| && RfcText(text[pos..]) && room >= 1
    ensures var end := EndOf(text, pos, room);
            && RfcText(text[end..]) && |Ucs2Segments(text, pos, room)| >= 1
            && (CharCount(text, pos) <= room ==> Ucs2Segments(text, pos, room) == [text[pos..]])
            && (CharCount(text, pos) > room ==>
                && Ucs2Segments(text, pos, room) == [text[pos..end]] + Ucs2Segments(text, end, room)
                && CharCount(text, end) == CharCount(text, pos) - room)
  {
    hide RfcText, CodePoints, EndOf;
    EndOfTakes(text, pos, room);
  }

  // ---------- The parts ----------

  ghost predicate AreCodable(parts: seq<seq<byte>>, coding: Coding)
  {
    forall k :: 0 <= k < |parts| ==> IsCodable(parts[k], coding)
  }

  ghost predicate AreTexts(parts: seq<seq<byte>>, coding: Coding)
  {
    forall k :: 0 <= k < |parts| ==> IsText(parts[k], coding)
  }

  lemma {:induction false} PartOfJoin(parts: seq<seq<byte>>, k: nat, c: byte)
    requires k < |parts| && c in parts[k]
    ensures c in Join(parts)
  {
    if k > 0 {
      PartOfJoin(parts[1..], k - 1, c);
    }
  }

  /** A mapped text takes as many septets as SeptetsLength says. */
  lemma {:induction false} EncodedLength(t: seq<byte>)
    ensures |EncodeText(t)| >= TextSeptets(t)
    ensures |EncodeText(t)| == TextSeptets(t) <==> IsGsm(t)
  {
    if t != [] {
      EncodedLength(t[1..]);
      CharWidth(t[0]);
      assert t == [t[0]] + t[1..];
    }
  }

  lemma {:induction false} Ucs2SegmentsFit(text: seq<byte>, pos: nat, room: nat)
    requires pos <= |text| && RfcText(text[pos..]) && room >= 1 && IsBmp(CodePoints(Utf8, text[pos..]))
    ensures Join(Ucs2Segments(text, pos, room)) == text[pos..]
    ensures forall k :: 0 <= k < |Ucs2Segments(text, pos, room)| ==>
              var part := Ucs2Segments(text, pos, room)[k]; IsUcs2(part) && |CodePoints(Utf8, part)| <= room
    decreases |text| - pos
  {
    hide RfcText, CodePoints, EndOf;
    Ucs2Step(text, pos, room);
    var parts := Ucs2Segments(text, pos, room);
    if CharCount(text, pos) > room {
      var end, cps := EndOf(text, pos, room), CodePoints(Utf8, text[pos..]);
      EndAdvances(text, pos, room);
      EndOfTakes(text, pos, room);
      EncodedIsRfcText(cps[..room]) by { RfcTextIsRead(text[pos..]); }
      Ucs2SegmentsFit(text, end, room);
      assert parts[1..] == Ucs2Segments(text, end, room);
      assert text[pos..end] + text[end..] == text[pos..];
    } else {
      assert parts[1..] == [];
    }
  }

  lemma {:induction false} JoinIsOfParts(parts: seq<seq<byte>>, c: byte)
    requires c in Join(parts)
    ensures exists k :: 0 <= k < |parts| && c in parts[k]
  {
    if c in parts[0] {
      assert 0 < |parts|;
    } else {
      JoinIsOfParts(parts[1..], c);
      var k :| 0 <= k < |parts| - 1 && c in parts[1..][k];
      assert c in parts[k + 1];
    }
  }

  /** Splitting keeps the text, and every part is text of the same coding that fits its room. */
  lemma SplitKeepsText(text: seq<byte>, header: Header, coding: Coding, size: RefSize)
    requires IsCodable(text, coding) && SplitDefined(text, header, coding, size)
    requires SplitOf(text, header, coding, size).Some?
    ensures var parts := SplitOf(text, header, coding, size).value;
            var more := Room(WithReference(CountedLength(header), size), coding);
            && Join(parts) == text
            && |parts| >= 1
            && AreCodable(parts, coding)
            && (AreTexts(parts, coding) <==> IsText(text, coding))
            && (|parts| > 1 ==> forall k :: 0 <= k < |parts| ==> Width(parts[k], coding) <= more)
            && (Room(CountedLength(header), coding) >= 1 ==>
                forall k :: 0 <= k < |parts| ==> Width(parts[k], coding) <= Room(CountedLength(header), coding))
  {
    hide RfcText, CodePoints, CountedLength, CharSeptets, Segments, Ucs2Segments, TextSeptets, MaxFit;
    var parts := SplitOf(text, header, coding, size).value;
    var more := Room(WithReference(CountedLength(header), size), coding);
    var room := Room(CountedLength(header), coding);
    if room < 1 || Width(text, coding) <= room {
      assert parts == [text] && parts[1..] == [];
      NoParts(text);
    } else if coding == Bit7 {
      SegmentsConcat(text, more);
      forall k | 0 <= k < |parts|
        ensures TextSeptets(parts[k]) <= more
      {
        SegmentsFit(text, more, k);
      }
      PartsAreGsm(parts);
      NoParts(text);
    } else {
      assert text[0..] == text;
      Ucs2SegmentsFit(text, 0, more);
      NoParts(text);
    }
  }

  /** The characters of the parts are those of the text. */
  lemma PartsAreGsm(parts: seq<seq<byte>>)
    ensures AreTexts(parts, Bit7) <==> IsGsm(Join(parts))
  {
    hide Mapped, Join;
    if IsGsm(Join(parts)) {
      forall k, c | 0 <= k < |parts| && c in parts[k]
        ensures Mapped(c)
      {
        PartOfJoin(parts, k, c);
      }
    }
    if AreTexts(parts, Bit7) {
      forall c | c in Join(parts)
        ensures Mapped(c)
      {
        JoinIsOfParts(parts, c);
        var k :| 0 <= k < |parts| && c in parts[k];
        assert IsText(parts[k], Bit7);
      }
    }
  }

  lemma NoParts(text: seq<byte>)
    ensures TextSeptets([]) == 0 && CodePoints(Utf8, []) == [] && Join<byte>([]) == []
  {
  }

  // ---------- Encoding the parts ----------

  /** The concatenation element: reference, number of parts, and the number of this part from 1. */
  function Reference(csmmr: nat, total: nat, index: nat, size: RefSize): Element
  {
    match size
    case Bit8Ref => Element(0, [ToChar(csmmr % 256), ToChar(total), ToChar(index + 1)])
    case Bit16Ref => Element(8, [ToChar(csmmr / 256 % 256), ToChar(csmmr % 256), ToChar(total), ToChar(index + 1)])
  }

  /** UpdateUDH. */
  function UpdateUdh(header: Header, csmmr: nat, total: nat, index: nat, size: RefSize): seq<Element>
  {
    [Reference(csmmr, total, index, size)] + ListOf(header)
  }

  /** What SoloPDUEncoding prints in front of the user data: type, reference, address, protocol, coding and a
      one-octet validity period. */
  function PduHead(address: string, udhs: seq<Element>, coding: Coding): string
  {
    PrintHex(if udhs == [] then 0x11 else 0x51, 2) + "00" + address + "00"
    + (if coding == Bit7 then "00" else "08") + "FF"
  }

  ghost function SoloPdu(address: string, text: seq<byte>, udhs: seq<Element>, coding: Coding): string
    requires IsCodable(text, coding)
  {
    PduHead(address, udhs, coding) + EncodedUserData(text, udhs, coding)
  }

  /** The header of part i. */
  function PartHeader(header: Header, csmmr: nat, total: nat, i: nat, size: RefSize): seq<Element>
  {
    if total > 1 then UpdateUdh(header, csmmr, total, i, size) else ListOf(header)
  }

  ghost function EncodedParts(address: string, parts: seq<seq<byte>>, header: Header, coding: Coding, csmmr: nat,
                              size: RefSize)
    : (r: seq<string>)
    requires AreCodable(parts, coding)
    ensures |r| == |parts|
  {
    seq(|parts|, i requires 0 <= i < |parts| =>
      SoloPdu(address, parts[i], PartHeader(header, csmmr, |parts|, i, size), coding))
  }

  lemma PartIsEncoded(address: string, parts: seq<seq<byte>>, header: Header, coding: Coding, csmmr: nat,
                      size: RefSize, i: nat)
    requires AreCodable(parts, coding) && i < |parts|
    ensures EncodedParts(address, parts, header, coding, csmmr, size)[i]
         == SoloPdu(address, parts[i], PartHeader(header, csmmr, |parts|, i, size), coding)
  {
    hide SoloPdu, IsCodable;
  }

  function NextReference(csmmr: nat): nat
  {
    if csmmr + 1 > 0xFFFF then 0 else csmmr + 1
  }

  /** The encoder's global state: the next message reference and the width it is written with. */
  class Encoder {
    var csmmr: nat
    var csmiei: RefSize

    /** sms_init. */
    constructor ()
      ensures csmmr == 0 && csmiei == Bit8Ref
    {
      csmmr, csmiei := 0, Bit8Ref;
    }

    method SoloPduEncoding(address: string, text: seq<byte>, udhs: seq<Element>, coding: Coding)
      returns (result: string)
      requires IsCodable(text, coding)
      ensures result == SoloPdu(address, text, udhs, coding)
    {
      result := PrintHex(if |udhs| == 0 then 0x11 else 0x51, 2);
      result := result + "00" + address + "00" + (if coding == Bit7 then "00" else "08") + "FF";
      var ud := UdEncoding(text, udhs, coding);
      result := result + ud;
    }

    /** PDUDoEncoding: the messages of a text, and the next reference, which is used up by a long text only. */
    method PduDoEncoding(address: string, udc: seq<byte>, header: Header, coding: Coding)
      returns (pdus: Option<seq<string>>)
      requires IsCodable(udc, coding) && SplitDefined(udc, header, coding, csmiei)
      requires var split := SplitOf(udc, header, coding, csmiei); split.Some? ==> |split.value| <= MAX_SMS_NR
      modifies this`csmmr
      ensures var split := SplitOf(udc, header, coding, csmiei);
              && pdus.Some? == split.Some?
              && (split.Some? ==>
                  && AreCodable(split.value, coding)
                  && pdus.value == EncodedParts(address, split.value, header, coding, old(csmmr), csmiei))
              && csmmr == if split.Some? && |split.value| > 1 then NextReference(old(csmmr)) else old(csmmr)
    {
      hide SplitOf, SplitDefined, SoloPdu, IsText, IsCodable, EncodedParts, UpdateUdh;
      var uds := UdcSplit(udc, header, coding, csmiei);
      if uds == None {
        return None;
      }
      var parts := uds.value;
      SplitKeepsText(udc, header, coding, csmiei);
      var list: seq<string> := [];
      ghost var expected := EncodedParts(address, parts, header, coding, csmmr, csmiei);
      if |parts| > 1 {
        var reference := csmmr;
        csmmr := csmmr + 1;
        if csmmr > 0xFFFF {
          csmmr := 0;
        }
        var i := 0;
        while i < |parts|
          invariant 0 <= i <= |parts| && csmmr == NextReference(reference)
          invariant list == expected[..i]
        {
          var udhs := UpdateUdh(header, reference, |parts|, i, csmiei);
          var pdu := SoloPduEncoding(address, parts[i], udhs, coding);
          PartIsEncoded(address, parts, header, coding, reference, csmiei, i);
          list := list + [pdu];
          i := i + 1;
        }
      } else {
        var pdu := SoloPduEncoding(address, parts[0], ListOf(header), coding);
        PartIsEncoded(address, parts, header, coding, csmmr, csmiei, 0);
        list := [pdu];
      }
      pdus := Some(list);
    }

    /** PDUEncoding: sms_init, the choice of the coding, and the messages. */
    method PduEncoding(address: string, udc: seq<byte>, header: Header, behind: seq<nat>)
      returns (pdus: Option<seq<string>>)
      requires IsUcs2(udc) && behind != [] && behind[|behind| - 1] == 0
      requires SplitDefined(udc, header, CodingOf(udc, behind), Bit8Ref)
      requires var split := SplitOf(udc, header, CodingOf(udc, behind), Bit8Ref);
               split.Some? ==> |split.value| <= MAX_SMS_NR
      modifies this
      ensures var coding := CodingOf(udc, behind);
              && var split := SplitOf(udc, header, coding, Bit8Ref);
              && pdus.Some? == split.Some?
              && (split.Some? ==>
                  && AreCodable(split.value, coding)
                  && pdus.value == EncodedParts(address, split.value, header, coding, 0, Bit8Ref))
    {
      hide SplitOf, SplitDefined, IsUcs2, TakenForGsm, EncodedParts;
      csmmr, csmiei := 0, Bit8Ref;
      var gsm := IsGsmString(udc, behind);
      pdus := PduDoEncoding(address, udc, header, if gsm then Bit7 else Ucs2);
    }
  }

  // ---------- The choice of the coding ----------

  /** Every unit in front of the first zero is in the alphabet. */
  predicate AlphabetUpToZero(units: seq<nat>)
  {
    units == [] || units[0] == 0 || (InAlphabet(units[0]) && AlphabetUpToZero(units[1..]))
  }

  predicate IsAscii(text: seq<byte>)
  {
    forall c :: c in text ==> c < 0x80
  }

  /** The verdict of isGSMString. Its buffer holds the units of the text without a zero behind them, so it also looks
      at the units that stand behind the buffer. */
  ghost predicate TakenForGsm(text: seq<byte>, behind: seq<nat>)
    requires IsUcs2(text)
  {
    IsAscii(text) || AlphabetUpToZero(UnitsOf(text) + behind)
  }

  ghost function CodingOf(text: seq<byte>, behind: seq<nat>): Coding
    requires IsUcs2(text)
  {
    if TakenForGsm(text, behind) then Bit7 else Ucs2
  }

  /** is_acsii. */
  method IsAcsii(text: seq<byte>) returns (r: bool)
    ensures r == IsAscii(text)
  {
    var i := 0;
    while i < |text|
      invariant 0 <= i <= |text|
      invariant forall j :: 0 <= j < i ==> text[j] < 0x80
    {
      if text[i] >= 0x80 {
        assert text[i] in text;
        return false;
      }
      i := i + 1;
    }
    r := true;
  }

  /** isGSMString. */
  method IsGsmString(data: seq<byte>, behind: seq<nat>) returns (r: bool)
    requires IsUcs2(data) && behind != [] && behind[|behind| - 1] == 0
    ensures r == TakenForGsm(data, behind)
  {
    hide RfcText, CodePoints, Transcode, Patched, Encode, InAlphabet;
    var ascii := IsAcsii(data);
    if ascii {
      return true;
    }
    ghost var units := UnitsOf(data);
    var len := Utf8Len(data);
    var buffer := new nat[len];
    RfcTextIsRead(data);
    BmpUnits(units);
    WellFormedConverts(Utf8, Utf16, units, len);
    ghost var before := buffer[..];
    var status, read, written := ConvertUtf8ToUtf16(data, buffer, 0, len);
    PatchedWhole(before, units);
    var memory := buffer[..] + behind;
    assert memory == units + behind;
    var code := 0;
    while memory[code] != 0
      invariant 0 <= code < |memory|
      invariant AlphabetUpToZero(memory) == AlphabetUpToZero(memory[code..])
      decreases |memory| - code
    {
      var found := MapGetValue(UCS2_TO_BIT7, memory[code]);
      if !(IsBit7Same(memory[code]) || found >= 0) {
        OneUnitFurther(memory, code);
        return false;
      }
      OneUnitFurther(memory, code);
      assert memory[|memory| - 1] == 0;
      code := code + 1;
    }
    r := true;
  }

  lemma OneUnitFurther(memory: seq<nat>, code: nat)
    requires code < |memory| && memory[code] != 0
    ensures AlphabetUpToZero(memory[code..])
         == ((IsBit7Same(memory[code]) || GsmCode(memory[code]) >= 0) && AlphabetUpToZero(memory[code + 1..]))
  {
    hide IsBit7Same, GsmCode;
    assert memory[code..][1..] == memory[code + 1..];
  }

  // ---------- The messages fit, and decoding them gives the text back ----------

  /** No element data contains a zero, and the last char of the header is not negative. */
  ghost predicate IsClean(list: seq<Element>)
  {
    !EndsBelowZero(list) && forall i :: 0 <= i < |list| ==> forall j :: 0 <= j < |list[i].ied| ==> list[i].ied[j] != 0
  }

  predicate AllReadable(list: seq<Element>)
  {
    forall i :: 0 <= i < |list| ==> IsReadable(list[i])
  }

  /** Each octet of the message reference is below 0x80, as it always is behind sms_init, or is 0xFF. */
  predicate ReferenceComesBack(csmmr: nat, size: RefSize)
  {
    && (csmmr % 256 < 0x80 || csmmr % 256 == 0xFF)
    && (size == Bit16Ref ==> csmmr / 256 % 256 < 0x80 || csmmr / 256 % 256 == 0xFF)
  }

  /** strlen counts the header octets that are encoded exactly when no element data contains a zero. */
  lemma {:induction false} CountIsExact(list: seq<Element>)
    ensures CountedElements(list) <= UdhLength(list)
    ensures CountedElements(list) == UdhLength(list)
       <==> forall i :: 0 <= i < |list| ==> forall j :: 0 <= j < |list[i].ied| ==> list[i].ied[j] != 0
  {
    if list != [] {
      var front, last := list[..|list| - 1], list[|list| - 1];
      assert list == front + [last];
      UdhLengthConcat(front, [last]);
      assert [last][1..] == [];
      CountIsExact(front);
      assert forall i :: 0 <= i < |front| ==> front[i] == list[i];
    }
  }

  /** The header of a part is as long as UDCSplit reckoned, and its text as long as it announces, whatever the
      reference. */
  lemma PartHeaderFits(header: Header, csmmr: nat, total: nat, i: nat, size: RefSize)
    requires IsClean(ListOf(header)) && total < 128 && i < total
    requires WithReference(CountedLength(header), size) < 256
    ensures var udhs := UpdateUdh(header, csmmr, total, i, size);
            && HeaderLength(udhs) == WithReference(CountedLength(header), size)
            && HasItsLength(udhs) && |EncodedHeader(udhs)| == 2 * HeaderLength(udhs)
  {
    hide EncodedHeader;
    var list, udhs := ListOf(header), UpdateUdh(header, csmmr, total, i, size);
    CountIsExact(list);
    assert udhs[0] == Reference(csmmr, total, i, size) && udhs[1..] == list;
    assert list != [] ==> udhs[|udhs| - 1] == list[|list| - 1];
    HeaderLengthIsExact(udhs);
  }

  /** The reference of a part is read back exactly when each of its octets is below 0x80 or is 0xFF: with one octet the
      129th to the 256th long text that PDUDoEncoding is called for directly are all read with reference 255.
      PDUEncoding starts again from reference 0 with every text. */
  lemma ReferenceReadBackIff(csmmr: nat, total: nat, i: nat, size: RefSize)
    requires i < total < 128
    ensures var e := Reference(csmmr, total, i, size);
            && (ElementRead(e) == e <==> ReferenceComesBack(csmmr, size))
            && (size == Bit8Ref && 128 <= csmmr < 256 ==> ElementRead(e) == Reference(255, total, i, size))
  {
    hide ToChar;
    var e := Reference(csmmr, total, i, size);
    ReadAsItIs(e);
    OctetChar(csmmr % 256);
    OctetChar(csmmr / 256 % 256);
    OctetChar(total);
    OctetChar(i + 1);
    if size == Bit8Ref {
      OctetChar(255);
      assert CharsRead(e.ied) == [CharRead(e.ied[0]), e.ied[1], e.ied[2]];
    } else {
      assert e.ied[0] == ToChar(csmmr / 256 % 256) && e.ied[1] == ToChar(csmmr % 256);
    }
  }

  /** The concatenation elements (sections 9.2.3.24.1 and 9.2.3.24.8): identifier 0 with a reference of one octet, 8
      with one of two, high-order octet first; then the number of messages, and the number of this one from 1. */
  lemma ReferenceOctets()
    ensures Reference(0x1234, 3, 0, Bit8Ref) == Element(0, [0x34, 3, 1])
    ensures Reference(0x1234, 3, 1, Bit16Ref) == Element(8, [0x12, 0x34, 3, 2])
  {
  }

  lemma OctetChar(o: byte)
    ensures ToChar(o) >= 0 <==> o < 0x80
    ensures ToChar(o) >= -1 <==> o < 0x80 || o == 0xFF
    ensures o == 0xFF ==> ToChar(o) == -1
  {
  }

  /** A part's header is read as it was given exactly when its reference and the caller's elements are. */
  lemma PartHeaderReadBack(header: Header, csmmr: nat, total: nat, i: nat, size: RefSize)
    requires i < total < 128
    ensures var udhs := PartHeader(header, csmmr, total, i, size);
            && (total > 1 ==> udhs == [Reference(csmmr, total, i, size)] + ListOf(header))
            && (ElementsRead(udhs) == udhs
                <==> AllReadable(ListOf(header)) && (total > 1 ==> ReferenceComesBack(csmmr, size)))
  {
    hide Reference, IsReadable, ElementsRead, ReferenceComesBack;
    var list, udhs := ListOf(header), PartHeader(header, csmmr, total, i, size);
    ReadAsTheyAre(udhs);
    if total > 1 {
      ReferenceReadBackIff(csmmr, total, i, size);
      ReadAsItIs(Reference(csmmr, total, i, size));
      assert udhs[0] == Reference(csmmr, total, i, size) && forall k :: 0 <= k < |list| ==> udhs[k + 1] == list[k];
    }
  }

  /** Septets behind the header that fit 160 take, packed, at most 140 octets with the header. */
  lemma PackedFits(udhl: nat, count: nat)
    requires HeaderSeptets(udhl) + count <= 160
    ensures udhl + PackedLength(count, FillBits(udhl)) <= 140
  {
  }

  /** Septets or octets a message may take. */
  function Capacity(coding: Coding): nat
  {
    if coding == Bit7 then 160 else 140
  }

  ghost predicate FitsMessage(text: seq<byte>, udhs: seq<Element>, coding: Coding)
    requires IsText(text, coding)
  {
    && UserDataLength(text, udhs, coding) <= Capacity(coding)
    && (coding == Bit7 ==>
        HeaderLength(udhs) + PackedLength(ContentLength(text, coding), FillBits(HeaderLength(udhs))) <= 140)
  }

  lemma TextFits(text: seq<byte>, udhs: seq<Element>, coding: Coding)
    requires IsText(text, coding) && Width(text, coding) <= Room(HeaderLength(udhs), coding)
    ensures FitsMessage(text, udhs, coding)
  {
    hide EncodeText, CodePoints, TextSeptets, RfcText, HeaderLength;
    if coding == Bit7 {
      EncodedLength(text);
      PackedFits(HeaderLength(udhs), |EncodeText(text)|);
    }
  }

  /** Every part of a split leaves room for the header it is sent with. */
  lemma PartLeavesRoom(text: seq<byte>, header: Header, coding: Coding, size: RefSize, csmmr: nat, i: nat)
    requires IsCodable(text, coding) && SplitDefined(text, header, coding, size) && IsClean(ListOf(header))
    requires Room(CountedLength(header), coding) >= 1
    requires var split := SplitOf(text, header, coding, size);
             split.Some? && |split.value| <= MAX_SMS_NR && i < |split.value|
    ensures var parts := SplitOf(text, header, coding, size).value;
            && AreCodable(parts, coding)
            && var udhs := PartHeader(header, csmmr, |parts|, i, size);
            && Width(parts[i], coding) <= Room(HeaderLength(udhs), coding)
  {
    hide IsText, IsCodable, UpdateUdh, CountedLength, HeaderLength, Width, SplitDefined;
    var parts := SplitOf(text, header, coding, size).value;
    SplitKeepsText(text, header, coding, size);
    if |parts| > 1 {
      RoomBoundsHeader(WithReference(CountedLength(header), size), coding);
      PartHeaderFits(header, csmmr, |parts|, i, size);
    } else {
      WholeHeaderFits(header, coding);
    }
  }

  /** Every message UDCSplit makes fits: 160 septets or 140 octets in its length octet, 140 octets in all. */
  lemma PartsFit(text: seq<byte>, header: Header, coding: Coding, size: RefSize, csmmr: nat)
    requires IsText(text, coding) && SplitDefined(text, header, coding, size) && IsClean(ListOf(header))
    requires Room(CountedLength(header), coding) >= 1
    requires var split := SplitOf(text, header, coding, size); split.Some? && |split.value| <= MAX_SMS_NR
    ensures var parts := SplitOf(text, header, coding, size).value;
            AreTexts(parts, coding)
            && forall i :: 0 <= i < |parts| ==>
                 FitsMessage(parts[i], PartHeader(header, csmmr, |parts|, i, size), coding)
  {
    hide IsUcs2, IsGsm, PartHeader, CountedLength, HeaderLength, Width, FitsMessage, SplitDefined, SplitOf;
    var parts := SplitOf(text, header, coding, size).value;
    SplitKeepsText(text, header, coding, size);
    forall i | 0 <= i < |parts|
      ensures FitsMessage(parts[i], PartHeader(header, csmmr, |parts|, i, size), coding)
    {
      PartLeavesRoom(text, header, coding, size, csmmr, i);
      TextFits(parts[i], PartHeader(header, csmmr, |parts|, i, size), coding);
    }
  }

  lemma RoomBoundsHeader(udhl: nat, coding: Coding)
    ensures Room(udhl, coding) >= 1 ==> udhl < 140
  {
  }

  lemma WholeHeaderFits(header: Header, coding: Coding)
    requires IsClean(ListOf(header))
    ensures Room(HeaderLength(ListOf(header)), coding) >= Room(CountedLength(header), coding)
  {
    CountIsExact(ListOf(header));
  }

  /** The text UserDataDecoding reads from the user data at character at. */
  ghost function DecodedText(pdu: string, at: nat, udhi: bool, coding: Coding): seq<nat>
  {
    match coding
    case Bit7 =>
      if HeaderSeptets(HeaderRead(pdu, at, udhi)) <= ReadHex(pdu, at, 2) then DecodedBit7(pdu, at, udhi) else []
    case Ucs2 => DecodedUcs2(pdu, at, udhi)
  }

  ghost function DecodedTexts(pdus: seq<string>, at: nat, udhi: bool, coding: Coding): (r: seq<seq<nat>>)
    ensures |r| == |pdus|
  {
    seq(|pdus|, i requires 0 <= i < |pdus| => DecodedText(pdus[i], at, udhi, coding))
  }

  /** One message whose text the splitter reckons to fit is decoded to the text exactly when this is of the alphabet
      of its coding. */
  lemma PartRoundTrip(address: string, text: seq<byte>, udhs: seq<Element>, coding: Coding)
    requires IsCodable(text, coding) && Width(text, coding) <= Room(HeaderLength(udhs), coding)
    requires HasItsLength(udhs)
    ensures var pdu, at := SoloPdu(address, text, udhs, coding), |PduHead(address, udhs, coding)|;
            && (DecodedText(pdu, at, udhs != [], coding) == text <==> IsText(text, coding))
            && (IsText(text, coding) && udhs != []
                ==> DecodedElements(pdu, at + 4, 0, UdhLength(udhs)) == ElementsRead(udhs))
  {
    hide EncodedUserData, DecodedBit7, DecodedUcs2, DecodedElements, HeaderRead, ReadHex, PduHead, UserDataLength;
    hide Width, HeaderLength, HasItsLength, ElementsRead, IsGsm, IsUcs2, FitsMessage, HeaderSeptets;
    var head := PduHead(address, udhs, coding);
    assert SoloPdu(address, text, udhs, coding) == head + EncodedUserData(text, udhs, coding) + "";
    if IsText(text, coding) {
      TextFits(text, udhs, coding);
      FitIsShort(text, udhs, coding);
    }
    if coding == Ucs2 {
      Ucs2RoundTrip(head, text, udhs, "");
    } else if UserDataLength(text, udhs, Bit7) < 256 {
      Bit7RoundTrip(head, text, udhs, "");
    } else {
      LongLength(text, udhs);
      LengthIsCut(head, text, udhs, "");
    }
  }

  lemma FitIsShort(text: seq<byte>, udhs: seq<Element>, coding: Coding)
    requires IsText(text, coding) && FitsMessage(text, udhs, coding)
    ensures UserDataLength(text, udhs, coding) < 256
  {
    hide UserDataLength;
  }

  /** Unmapped characters are counted once and take two septets: a text of them can announce more than 255. */
  lemma LongLength(text: seq<byte>, udhs: seq<Element>)
    requires Width(text, Bit7) <= Room(HeaderLength(udhs), Bit7)
    requires UserDataLength(text, udhs, Bit7) >= 256
    ensures UserDataLength(text, udhs, Bit7) / 16 < |text| && UserDataLength(text, udhs, Bit7) < 0x1000
  {
    hide EncodeText, TextSeptets, HeaderLength;
    EncodedAtMost(text);
  }

  lemma {:induction false} EncodedAtMost(t: seq<byte>)
    ensures |EncodeText(t)| <= 2 * TextSeptets(t) && |EncodeText(t)| <= 2 * |t|
  {
    hide CharSeptets, EncodeChar, Mapped;
    if t != [] {
      EncodedAtMost(t[1..]);
      CharWidth(t[0]);
    }
  }

  lemma HeadLength(address: string, udhs: seq<Element>, coding: Coding)
    ensures |PduHead(address, udhs, coding)| == |address| + 10
  {
    PrintTwo(if udhs == [] then 0x11 else 0x51);
  }

  /** What the decoder takes from the head of a message: bit 6 of its first octet says whether the user data has a
      header, and bits 2 and 3 of the octet behind the address and the protocol are the number of the coding. */
  lemma HeadRead(address: string, udhs: seq<Element>, coding: Coding, rest: string)
    ensures var pdu := PduHead(address, udhs, coding) + rest;
            && (Bits.Bit(ReadHex(pdu, 0, 2), 6) <==> udhs != [])
            && Bits.BitAnd(Bits.Shr(ReadHex(pdu, |address| + 6, 2), 2), 3) == if coding == Bit7 then 0 else 2
  {
    hide ReadHex, PrintHex;
    var pdu := PduHead(address, udhs, coding) + rest;
    var first, second := if udhs == [] then 0x11 else 0x51, if coding == Bit7 then 0x00 else 0x08;
    PrintTwo(first);
    PrintTwo(second);
    var front := PrintHex(first, 2) + "00" + address + "00";
    assert pdu == "" + PrintHex(first, 2) + ("00" + address + "00" + PrintHex(second, 2) + "FF" + rest);
    ReadTwo("", first, "00" + address + "00" + PrintHex(second, 2) + "FF" + rest);
    assert pdu == front + PrintHex(second, 2) + ("FF" + rest) && |front| == |address| + 6;
    ReadTwo(front, second, "FF" + rest);
    TypeBits();
  }

  lemma TypeBits()
    ensures !Bits.Bit(0x11, 6) && Bits.Bit(0x51, 6)
    ensures Bits.BitAnd(Bits.Shr(0x00, 2), 3) == 0 && Bits.BitAnd(Bits.Shr(0x08, 2), 3) == 2
  {
    assert Bits.Bit(0x11, 6) == Bits.Bit(0x11 / 8, 3) == Bits.Bit(0, 1);
    assert Bits.Bit(0x51, 6) == Bits.Bit(0x51 / 8, 3) == Bits.Bit(1, 0);
    assert Bits.BitAnd(2, 3) == 2 * Bits.BitAnd(1, 1);
    assert Bits.BitAnd(1, 1) == 2 * Bits.BitAnd(0, 0) + 1;
    assert Bits.BitAnd(0, 3) == 2 * Bits.BitAnd(0, 1);
    assert Bits.BitAnd(0, 1) == 2 * Bits.BitAnd(0, 0);
  }

  /** Message i of a text: its text, exactly if it is of the alphabet, and its header, with -1 for negative chars. */
  lemma MessageRoundTrip(address: string, text: seq<byte>, header: Header, coding: Coding, csmmr: nat,
                         size: RefSize, i: nat)
    requires IsCodable(text, coding) && SplitDefined(text, header, coding, size) && IsClean(ListOf(header))
    requires Room(CountedLength(header), coding) >= 1
    requires var split := SplitOf(text, header, coding, size);
             split.Some? && |split.value| <= MAX_SMS_NR && i < |split.value|
    ensures var parts := SplitOf(text, header, coding, size).value;
            && AreCodable(parts, coding)
            && var udhs := PartHeader(header, csmmr, |parts|, i, size);
            && var pdu := EncodedParts(address, parts, header, coding, csmmr, size)[i];
            && (DecodedText(pdu, |address| + 10, udhs != [], coding) == parts[i] <==> IsText(parts[i], coding))
            && (IsText(parts[i], coding) && udhs != []
                ==> DecodedElements(pdu, |address| + 14, 0, UdhLength(udhs)) == ElementsRead(udhs))
  {
    hide IsText, SoloPdu, EncodedParts, DecodedText, DecodedElements, CountedLength, HeaderLength, PduHead;
    hide IsCodable, SplitDefined, HasItsLength, UpdateUdh, Width, ElementsRead;
    var parts := SplitOf(text, header, coding, size).value;
    SplitKeepsText(text, header, coding, size);
    PartLeavesRoom(text, header, coding, size, csmmr, i);
    var udhs := PartHeader(header, csmmr, |parts|, i, size);
    PartIsEncoded(address, parts, header, coding, csmmr, size, i);
    PartHasItsLength(header, coding, csmmr, |parts|, i, size);
    HeadLength(address, udhs, coding);
    PartRoundTrip(address, parts[i], udhs, coding);
  }

  /** The main law: for everything of either coding that UDCSplit accepts, the messages PDUDoEncoding makes of it are
      decoded to its parts exactly when it is text of the alphabet of its coding, whatever the message reference. Then
      the parts joined are the text; the header of message i is the caller's header behind a concatenation element with
      the reference, the number of messages and the number i + 1, and it is read back exactly when its chars and the
      octets of the reference are. */
  lemma LongMessageRoundTrip(address: string, text: seq<byte>, header: Header, coding: Coding, csmmr: nat,
                             size: RefSize)
    requires IsCodable(text, coding) && SplitDefined(text, header, coding, size) && IsClean(ListOf(header))
    requires Room(CountedLength(header), coding) >= 1
    requires var split := SplitOf(text, header, coding, size);
             split.Some? && |split.value| <= MAX_SMS_NR
    ensures var parts := SplitOf(text, header, coding, size).value;
            && AreCodable(parts, coding)
            && var pdus := EncodedParts(address, parts, header, coding, csmmr, size);
            && var udhi := |parts| > 1 || ListOf(header) != [];
            && (DecodedTexts(pdus, |address| + 10, udhi, coding) == parts <==> IsText(text, coding))
            && (IsText(text, coding) ==> Join(DecodedTexts(pdus, |address| + 10, udhi, coding)) == text)
            && forall i :: 0 <= i < |parts| && udhi && IsText(text, coding) ==>
                 && var udhs := PartHeader(header, csmmr, |parts|, i, size);
                 && var read := DecodedElements(pdus[i], |address| + 14, 0, UdhLength(udhs));
                 && read == ElementsRead(udhs)
                 && (|parts| > 1 ==> udhs == [Reference(csmmr, |parts|, i, size)] + ListOf(header))
                 && (read == udhs
                     <==> AllReadable(ListOf(header)) && (|parts| > 1 ==> ReferenceComesBack(csmmr, size)))
  {
    hide IsText, SoloPdu, EncodedParts, DecodedText, DecodedElements, CountedLength, SplitDefined, Reference;
    hide UdhLength, Join, IsCodable, SplitOf, PartHeader, ElementsRead, AllReadable, ReferenceComesBack;
    var parts := SplitOf(text, header, coding, size).value;
    SplitKeepsText(text, header, coding, size);
    var pdus := EncodedParts(address, parts, header, coding, csmmr, size);
    var udhi := |parts| > 1 || ListOf(header) != [];
    var texts := DecodedTexts(pdus, |address| + 10, udhi, coding);
    forall i | 0 <= i < |parts|
      ensures texts[i] == parts[i] <==> IsText(parts[i], coding)
      ensures var udhs := PartHeader(header, csmmr, |parts|, i, size);
              && (udhi && IsText(parts[i], coding)
                  ==> DecodedElements(pdus[i], |address| + 14, 0, UdhLength(udhs)) == ElementsRead(udhs))
              && (|parts| > 1 ==> udhs == [Reference(csmmr, |parts|, i, size)] + ListOf(header))
              && (ElementsRead(udhs) == udhs
                  <==> AllReadable(ListOf(header)) && (|parts| > 1 ==> ReferenceComesBack(csmmr, size)))
    {
      MessageRoundTrip(address, text, header, coding, csmmr, size, i);
      HeaderIsThere(header, csmmr, |parts|, i, size);
      PartHeaderReadBack(header, csmmr, |parts|, i, size);
    }
    SameIffEach(texts, parts, coding);
    JoinOfBytes(parts);
  }

  lemma HeaderIsThere(header: Header, csmmr: nat, total: nat, i: nat, size: RefSize)
    ensures PartHeader(header, csmmr, total, i, size) != [] <==> total > 1 || ListOf(header) != []
  {
  }

  lemma SameIffEach(texts: seq<seq<nat>>, parts: seq<seq<byte>>, coding: Coding)
    requires |texts| == |parts|
    requires forall i :: 0 <= i < |parts| ==> (texts[i] == parts[i] <==> IsText(parts[i], coding))
    ensures texts == parts <==> AreTexts(parts, coding)
  {
    hide IsText;
  }

  /** The law of PDUEncoding, for every UTF-8 text of the basic plane: its messages are decoded to their parts exactly
      when every char of the text is in the alphabet, or isGSMString refuses the text. Text with other characters that
      it takes for GSM is lost. Every long text carries reference 0. */
  lemma PduEncodingRoundTrip(address: string, text: seq<byte>, header: Header, behind: seq<nat>)
    requires IsUcs2(text) && SplitDefined(text, header, CodingOf(text, behind), Bit8Ref) && IsClean(ListOf(header))
    requires Room(CountedLength(header), CodingOf(text, behind)) >= 1
    requires var split := SplitOf(text, header, CodingOf(text, behind), Bit8Ref);
             split.Some? && |split.value| <= MAX_SMS_NR
    ensures var coding := CodingOf(text, behind);
            && var parts := SplitOf(text, header, coding, Bit8Ref).value;
            && AreCodable(parts, coding)
            && var pdus := EncodedParts(address, parts, header, coding, 0, Bit8Ref);
            && var udhi := |parts| > 1 || ListOf(header) != [];
            && (DecodedTexts(pdus, |address| + 10, udhi, coding) == parts
                <==> IsGsm(text) || !TakenForGsm(text, behind))
            && (IsGsm(text) || !TakenForGsm(text, behind)
                ==> Join(DecodedTexts(pdus, |address| + 10, udhi, coding)) == text)
            && forall i :: 0 <= i < |parts| && |parts| > 1 && (IsGsm(text) || !TakenForGsm(text, behind)) ==>
                 && var udhs := [Element(0, [0, ToChar(|parts|), ToChar(i + 1)])] + ListOf(header);
                 && DecodedElements(pdus[i], |address| + 14, 0, UdhLength(udhs)) == ElementsRead(udhs)
                 && ElementsRead(udhs)[0] == udhs[0]
  {
    hide IsUcs2, IsGsm, TakenForGsm, EncodedParts, DecodedTexts, DecodedElements, UdhLength, Join, SplitOf;
    hide SplitDefined, CountedLength, AreCodable, ElementsRead, ElementRead, AllReadable;
    LongMessageRoundTrip(address, text, header, CodingOf(text, behind), 0, Bit8Ref);
    var parts := SplitOf(text, header, CodingOf(text, behind), Bit8Ref).value;
    forall i | 0 <= i < |parts| && |parts| > 1
      ensures var udhs := [Element(0, [0, ToChar(|parts|), ToChar(i + 1)])] + ListOf(header);
              && Reference(0, |parts|, i, Bit8Ref) == udhs[0] && ElementsRead(udhs)[0] == udhs[0]
    {
      FirstReference(ListOf(header), |parts|, i);
    }
  }

  lemma FirstReference(list: seq<Element>, total: nat, i: nat)
    requires i < total < 128
    ensures var udhs := [Element(0, [0, ToChar(total), ToChar(i + 1)])] + list;
            && Reference(0, total, i, Bit8Ref) == udhs[0] && ElementsRead(udhs)[0] == udhs[0]
  {
    ReferenceReadBackIff(0, total, i, Bit8Ref);
    assert Reference(0, total, i, Bit8Ref).ied == [0, ToChar(total), ToChar(i + 1)];
  }

  /** A single e with an acute accent: isGSMString finds its unit in the alphabet, but BIT7Encoding takes its two octets
      one by one. */
  lemma AccentIsLost()
    ensures var text := [0xC3, 0xA9];
            IsUcs2(text) && UnitsOf(text) == [0xE9] && TakenForGsm(text, [0]) && !IsGsm(text)
  {
    hide MapValue, RfcText, Mapped;
    var text: seq<byte> := [0xC3, 0xA9];
    assert text[2..] == [] && text[..2] == text;
    assert Decode8(text) == Scalar(0xE9, 2);
    assert CodePoints(Utf8, text) == [0xE9] + CodePoints(Utf8, text[2..]);
    assert [0xE9][1..] == [] && EncodeAll(Utf8, [0xE9]) == text;
    EncodedIsRfcText([0xE9]);
    FirstMatch(UCS2_TO_BIT7, 34);
    assert GsmCode(0xE9) == 5;
    assert ([0xE9] + [0])[1..] == [0] && AlphabetUpToZero([0]);
    NegativePair(0xC3);
    assert text[0] in text;
  }

  lemma {:induction false} JoinOfBytes(parts: seq<seq<byte>>)
    ensures Join<nat>(parts) == Join<byte>(parts)
  {
    if parts != [] {
      JoinOfBytes(parts[1..]);
    }
  }

  lemma PartHasItsLength(header: Header, coding: Coding, csmmr: nat, total: nat, i: nat, size: RefSize)
    requires IsClean(ListOf(header)) && i < total < 128
    requires Room(CountedLength(header), coding) >= 1
    requires total > 1 ==> Room(WithReference(CountedLength(header), size), coding) >= 1
    ensures HasItsLength(PartHeader(header, csmmr, total, i, size))
  {
    if total > 1 {
      RoomBoundsHeader(WithReference(CountedLength(header), size), coding);
      PartHeaderFits(header, csmmr, total, i, size);
    } else {
      RoomBoundsHeader(CountedLength(header), coding);
      CountIsExact(ListOf(header));
    }
  }

  /** A header with zeros in an element is counted short, and a text that fits the count need not fit. */
  lemma ZerosOverflow(text: seq<byte>)
    requires |text| == 156 && forall i :: 0 <= i < |text| ==> text[i] == 0x41
    ensures var header := Elements([Element(0, [0, 0, 0, 0, 0, 0, 0, 0, 0, 0])]);
            && IsGsm(text)
            && TextSeptets(text) == Room(CountedLength(header), Bit7)
            && UserDataLength(text, ListOf(header), Bit7) == 171
  {
    var e := Element(0, [0, 0, 0, 0, 0, 0, 0, 0, 0, 0]);
    assert [e][..0] == [] && [e][1..] == [];
    assert CountedElements([e]) == 2;
    SameShape(0x41);
    AllA(text);
    EncodedLength(text);
  }

  lemma {:induction false} AllA(text: seq<byte>)
    requires forall i :: 0 <= i < |text| ==> text[i] == 0x41
    ensures IsGsm(text) && TextSeptets(text) == |text|
  {
    hide CharSeptets, Mapped, EncodeChar;
    SameShape(0x41);
    if text != [] {
      AllA(text[1..]);
      assert text == [text[0]] + text[1..];
    }
  }
}
