/** What UDCSplit is for: a text travels in as few short messages as can hold it. Stated by what fits a message, apart
    from the room the splitter reckons with. */
module SplitLaws {
  import opened CTypes
  import opened GsmSplit
  import opened GsmText
  import opened LongMessage
  import opened Sequences
  import opened Ucs2Text
  import opened UserData
  import opened UserHeader
  import opened UtfLaws
  import opened UtfSpec
  import opened Wrappers

  // ---------- What fits ----------

  lemma FitsIffRoom(text: seq<byte>, udhs: seq<Element>, coding: Coding)
    requires IsText(text, coding)
    ensures FitsMessage(text, udhs, coding) <==> Width(text, coding) <= Room(HeaderLength(udhs), coding)
  {
    hide EncodeText, CodePoints, TextSeptets, RfcText, HeaderLength;
    if Width(text, coding) <= Room(HeaderLength(udhs), coding) {
      TextFits(text, udhs, coding);
    }
    EncodedLength(text);
  }

  /** A caller's header is as long as it is counted, but for a list of no elements, which is not written at all and
      counted as one octet. */
  lemma HeaderCounted(header: Header)
    requires IsClean(ListOf(header))
    ensures HeaderLength(ListOf(header)) == if header == Elements([]) then 0 else CountedLength(header)
    ensures CountedLength(Elements([])) == 1
  {
    CountIsExact(ListOf(header));
  }

  lemma PartHeaderCounted(header: Header, csmmr: nat, total: nat, i: nat, size: RefSize)
    requires IsClean(ListOf(header)) && total > 1
    ensures HeaderLength(PartHeader(header, csmmr, total, i, size)) == WithReference(CountedLength(header), size)
  {
    var list, udhs := ListOf(header), PartHeader(header, csmmr, total, i, size);
    CountIsExact(list);
    assert udhs[0] == Reference(csmmr, total, i, size) && udhs[1..] == list;
  }

  lemma NoText(coding: Coding)
    ensures IsText([], coding) && Width([], coding) == 0
  {
    NoCodePoints([]);
  }

  lemma HasWidth(text: seq<byte>, coding: Coding)
    requires IsText(text, coding) && text != []
    ensures Width(text, coding) > 0
  {
    if coding == Bit7 {
      CharWidth(text[0]);
    } else {
      RfcTextIsRead(text);
    }
  }

  lemma RoomShrinks(udhl: nat, size: RefSize, coding: Coding)
    ensures Room(WithReference(udhl, size), coding) <= Room(udhl, coding)
  {
  }

  // ---------- One message ----------

  /** A text that is wider than its room does not stay in one piece. */
  lemma CutIfTooWide(text: seq<byte>, header: Header, coding: Coding, size: RefSize)
    requires IsText(text, coding) && SplitDefined(text, header, coding, size)
    requires Room(CountedLength(header), coding) >= 1 && Width(text, coding) > Room(CountedLength(header), coding)
    ensures SplitOf(text, header, coding, size) != Some([text])
  {
    hide RfcText, CodePoints, CountedLength, Segments, Ucs2Segments, TextSeptets, CanSplit;
    var more := Room(WithReference(CountedLength(header), size), coding);
    RoomShrinks(CountedLength(header), size, coding);
    if more >= 1 && SplitOf(text, header, coding, size) == Some([text]) {
      if coding == Bit7 {
        SegmentsFit(text, more, 0);
      } else {
        assert text[0..] == text;
        Ucs2SegmentsFit(text, 0, more);
      }
      assert false;
    }
  }

  lemma OnePartIffRoom(text: seq<byte>, header: Header, coding: Coding, size: RefSize)
    requires IsText(text, coding) && SplitDefined(text, header, coding, size)
    ensures SplitOf(text, header, coding, size) == Some([text])
       <==> text == [] || Width(text, coding) <= Room(CountedLength(header), coding)
  {
    hide RfcText, CodePoints, CountedLength, Segments, Ucs2Segments, TextSeptets, IsText, Width;
    NoText(coding);
    if text != [] {
      HasWidth(text, coding);
    }
    if Room(CountedLength(header), coding) >= 1 && Width(text, coding) > Room(CountedLength(header), coding) {
      CutIfTooWide(text, header, coding, size);
    }
  }

  /** A text stays one message exactly when it fits one with the caller's header. Only a header that is a list of no
      elements takes room without being written: with it a text of 159 or 160 septets, or of 70 characters, is cut
      although it fits. */
  lemma OnePartIff(text: seq<byte>, header: Header, coding: Coding, size: RefSize)
    requires IsText(text, coding) && SplitDefined(text, header, coding, size) && IsClean(ListOf(header)) && text != []
    ensures (SplitOf(text, header, coding, size) == Some([text]) <==> FitsMessage(text, ListOf(header), coding))
       <==> header != Elements([]) || Width(text, coding) !in if coding == Bit7 then {159, 160} else {70}
    ensures header == NoHeader ==>
              (SplitOf(text, header, coding, size) == Some([text])
               <==> Width(text, coding) <= if coding == Bit7 then 160 else 70)
  {
    hide SplitOf, SplitDefined, IsText, Width, CountedLength, HeaderLength, FitsMessage, IsClean;
    OnePartIffRoom(text, header, coding, size);
    FitsIffRoom(text, ListOf(header), coding);
    HeaderCounted(header);
    NothingCounted();
  }

  lemma NothingCounted()
    ensures CountedLength(NoHeader) == 0
  {
  }

  // ---------- No part could be longer ----------

  lemma {:induction false} SegmentIsMost(t: seq<byte>, room: nat, k: nat)
    requires CanSplit(t, room) && k < |Segments(t, room)|
    ensures var left := Join(Segments(t, room)[k..]); Segments(t, room)[k] == left[..MaxFit(left, room)]
    decreases |t|
  {
    hide MaxFit, CharSeptets;
    var n, parts := MaxFit(t, room), Segments(t, room);
    FirstCharFits(t, room);
    if k == 0 {
      SegmentsConcat(t, room);
      assert parts[0..] == parts;
    } else {
      SegmentIsMost(t[n..], room, k - 1);
      assert parts[1..] == Segments(t[n..], room) && parts[k..] == parts[1..][k - 1..];
    }
  }

  lemma {:induction false} Ucs2SegmentsFull(text: seq<byte>, pos: nat, room: nat, k: nat)
    requires pos <= |text| && RfcText(text[pos..]) && room >= 1 && k < |Ucs2Segments(text, pos, room)| - 1
    ensures RfcText(Ucs2Segments(text, pos, room)[k]) && |CodePoints(Utf8, Ucs2Segments(text, pos, room)[k])| == room
    decreases |text| - pos
  {
    hide RfcText, CodePoints, EndOf;
    Ucs2Step(text, pos, room);
    var end, cps := EndOf(text, pos, room), CodePoints(Utf8, text[pos..]);
    EndAdvances(text, pos, room);
    EndOfTakes(text, pos, room);
    if k == 0 {
      RfcTextIsRead(text[pos..]);
      EncodedIsRfcText(cps[..room]);
    } else {
      Ucs2SegmentsFull(text, end, room, k - 1);
    }
  }

  /** A front of a text has a front of its characters. */
  lemma {:induction false} FrontOfCharacters(a: seq<nat>, b: seq<nat>)
    requires AreScalars(a) && AreScalars(b) && EncodeAll(Utf8, a) <= EncodeAll(Utf8, b)
    ensures a <= b
  {
    hide Encode8, Decode8, IsScalar;
    if a != [] {
      var s, t := EncodeAll(Utf8, a), EncodeAll(Utf8, b);
      EncodeAllStep(Utf8, a);
      EncodeIsEncode8(a[0]);
      EncodeNotEmpty(Utf8, a[0]);
      assert b != [];
      EncodeAllStep(Utf8, b);
      EncodeIsEncode8(b[0]);
      var x, y := EncodeAll(Utf8, a[1..]) + t[|s|..], EncodeAll(Utf8, b[1..]);
      ConcatAssociates(Encode8(a[0]), EncodeAll(Utf8, a[1..]), t[|s|..]);
      assert t == s + t[|s|..];
      DecodeEncoded8(a[0], x);
      DecodeEncoded8(b[0], y);
      assert a[0] == b[0] && x == t[|Encode8(a[0])|..] == y;
      FrontOfCharacters(a[1..], b[1..]);
    }
  }

  lemma LongerIsWider(part: seq<byte>, longer: seq<byte>)
    requires RfcText(part) && RfcText(longer) && part < longer
    ensures |CodePoints(Utf8, part)| < |CodePoints(Utf8, longer)|
  {
    hide RfcText, CodePoints, EncodeAll;
    RfcTextIsRead(part);
    RfcTextIsRead(longer);
    FrontOfCharacters(CodePoints(Utf8, part), CodePoints(Utf8, longer));
    assert CodePoints(Utf8, part) != CodePoints(Utf8, longer);
  }

  /** In a split text no part but the last could take in more of the text in front of it and still fit its message. */
  lemma PartsAreLongest(text: seq<byte>, header: Header, coding: Coding, size: RefSize, csmmr: nat, k: nat,
                        longer: seq<byte>)
    requires IsText(text, coding) && SplitDefined(text, header, coding, size) && IsClean(ListOf(header))
    requires SplitOf(text, header, coding, size).Some? && k < |SplitOf(text, header, coding, size).value| - 1
    requires var parts := SplitOf(text, header, coding, size).value; parts[k] < longer <= Join(parts[k..])
    requires IsText(longer, coding)
    ensures var parts := SplitOf(text, header, coding, size).value;
            !FitsMessage(longer, PartHeader(header, csmmr, |parts|, k, size), coding)
  {
    hide RfcText, CodePoints, CountedLength, Segments, Ucs2Segments, TextSeptets, MaxFit, CanSplit, IsClean;
    hide HeaderLength, PartHeader, FitsMessage, Join, IsGsm, Reference, IsBmp;
    var parts := SplitOf(text, header, coding, size).value;
    var more := Room(WithReference(CountedLength(header), size), coding);
    PartHeaderCounted(header, csmmr, |parts|, k, size);
    FitsIffRoom(longer, PartHeader(header, csmmr, |parts|, k, size), coding);
    if coding == Bit7 {
      SegmentIsMost(text, more, k);
      if TextSeptets(longer) <= more {
        var left := Join(parts[k..]);
        assert longer == left[..|longer|];
        FittingPrefix(left, |longer|, more);
        assert false;
      }
    } else {
      assert text[0..] == text;
      Ucs2SegmentsFull(text, 0, more, k);
      LongerIsWider(parts[k], longer);
    }
  }

  // ---------- As few parts as possible ----------

  /** These parts fit short messages, each with its own header. */
  ghost predicate FitMessages(parts: seq<seq<byte>>, header: Header, coding: Coding, size: RefSize, csmmr: nat)
    requires AreTexts(parts, coding)
  {
    forall i :: 0 <= i < |parts| ==> FitsMessage(parts[i], PartHeader(header, csmmr, |parts|, i, size), coding)
  }

  lemma CodePointsConcat(a: seq<nat>, b: seq<nat>)
    requires RfcText(a) && RfcText(b)
    ensures RfcText(a + b) && CodePoints(Utf8, a + b) == CodePoints(Utf8, a) + CodePoints(Utf8, b)
  {
    hide RfcText, CodePoints, EncodeAll, IsScalar;
    RfcTextIsRead(a);
    RfcTextIsRead(b);
    EncodeAllConcat(Utf8, CodePoints(Utf8, a), CodePoints(Utf8, b));
    EncodedIsRfcText(CodePoints(Utf8, a) + CodePoints(Utf8, b));
  }

  ghost predicate FittingCharacters(parts: seq<seq<byte>>, room: nat)
  {
    forall k :: 0 <= k < |parts| ==> RfcText(parts[k]) && |CodePoints(Utf8, parts[k])| <= room
  }

  lemma {:induction false} AtMostInParts(parts: seq<seq<byte>>, room: nat)
    requires FittingCharacters(parts, room)
    ensures RfcText(Join(parts)) && |CodePoints(Utf8, Join(parts))| <= |parts| * room
  {
    hide CodePoints;
    if parts == [] {
      NoCodePoints([]);
    } else {
      AtMostInParts(parts[1..], room);
      CodePointsConcat(parts[0], Join(parts[1..]));
      OneMoreTimes(|parts|, room);
    }
  }

  lemma OneMoreTimes(n: nat, room: nat)
    requires n > 0
    ensures n * room == (n - 1) * room + room
  {
  }

  lemma {:induction false} Ucs2SegmentsAtMost(text: seq<byte>, pos: nat, room: nat, n: nat)
    requires pos <= |text| && RfcText(text[pos..]) && room >= 1 && n >= 1 && CharCount(text, pos) <= n * room
    ensures |Ucs2Segments(text, pos, room)| <= n
    decreases n
  {
    hide RfcText, CodePoints, EndOf, Ucs2Segments;
    Ucs2Step(text, pos, room);
    OneMoreTimes(n, room);
    if CharCount(text, pos) > room {
      assert n > 1;
      Ucs2SegmentsAtMost(text, EndOf(text, pos, room), room, n - 1);
    }
  }

  lemma WidthsOfParts(parts: seq<seq<byte>>, header: Header, coding: Coding, size: RefSize, csmmr: nat, i: nat)
    requires IsClean(ListOf(header)) && AreTexts(parts, coding) && i < |parts|
    requires FitMessages(parts, header, coding, size, csmmr)
    ensures |parts| > 1 ==> Width(parts[i], coding) <= Room(WithReference(CountedLength(header), size), coding)
    ensures |parts| == 1 && header != Elements([]) ==> Width(parts[i], coding) <= Room(CountedLength(header), coding)
  {
    hide FitsMessage, CountedLength, HeaderLength, Room, Width, IsText;
    var udhs := PartHeader(header, csmmr, |parts|, i, size);
    assert IsText(parts[i], coding) && FitsMessage(parts[i], udhs, coding);
    FitsIffRoom(parts[i], udhs, coding);
    HeaderCounted(header);
    if |parts| > 1 {
      PartHeaderCounted(header, csmmr, |parts|, i, size);
    }
  }

  /** Some part of a text that is not empty is not empty. */
  lemma {:induction false} SomePart(parts: seq<seq<byte>>) returns (i: nat)
    requires Join(parts) != []
    ensures i < |parts| && parts[i] != []
  {
    if parts[0] != [] {
      i := 0;
    } else {
      i := SomePart(parts[1..]);
      i := i + 1;
    }
  }

  /** If a text can be cut at all into parts that fit short messages with their headers, UDCSplit cuts it, and no such
      cut has fewer parts. A list of no elements for a header can cost a message where one would do. */
  lemma FewestParts(text: seq<byte>, header: Header, coding: Coding, size: RefSize, csmmr: nat, other: seq<seq<byte>>)
    requires IsText(text, coding) && SplitDefined(text, header, coding, size) && IsClean(ListOf(header))
    requires header != Elements([]) || |other| > 1
    requires other != [] && Join(other) == text && AreTexts(other, coding)
    requires FitMessages(other, header, coding, size, csmmr)
    ensures SplitOf(text, header, coding, size).Some?
    ensures |SplitOf(text, header, coding, size).value| <= |other|
  {
    hide SplitOf, SplitDefined, IsText, AreTexts, FitMessages, Width, CountedLength, Room, IsClean, Join;
    OnePartIffRoom(text, header, coding, size);
    if text != [] {
      if |other| == 1 {
        WidthsOfParts(other, header, coding, size, csmmr, 0);
        OnlyPart(other[0]);
        assert other == [other[0]];
      } else {
        FewestOfMany(text, header, coding, size, csmmr, other);
      }
    }
  }

  lemma OnlyPart(part: seq<byte>)
    ensures Join([part]) == part
  {
    JoinOne(part);
  }

  lemma FewestOfMany(text: seq<byte>, header: Header, coding: Coding, size: RefSize, csmmr: nat, other: seq<seq<byte>>)
    requires IsText(text, coding) && SplitDefined(text, header, coding, size) && IsClean(ListOf(header)) && text != []
    requires |other| > 1 && Join(other) == text && AreTexts(other, coding)
    requires FitMessages(other, header, coding, size, csmmr)
    ensures SplitOf(text, header, coding, size).Some?
    ensures |SplitOf(text, header, coding, size).value| <= |other|
  {
    hide RfcText, CodePoints, CountedLength, Segments, Ucs2Segments, TextSeptets, CanSplit, IsClean, Join, IsGsm, IsBmp;
    hide FitMessages;
    var more := Room(WithReference(CountedLength(header), size), coding);
    forall i | 0 <= i < |other|
      ensures IsText(other[i], coding) && Width(other[i], coding) <= more
    {
      WidthsOfParts(other, header, coding, size, csmmr, i);
    }
    var i := SomePart(other);
    HasWidth(other[i], coding);
    RoomShrinks(CountedLength(header), size, coding);
    if Width(text, coding) > Room(CountedLength(header), coding) {
      if coding == Bit7 {
        GreedyIsOptimal(text, more, other);
      } else {
        assert text[0..] == text;
        AtMostInParts(other, more);
        Ucs2SegmentsAtMost(text, 0, more, |other|);
      }
    }
  }

  /** 70 characters with a list of no elements for a header are cut in two, though they fit one message. */
  lemma EmptyListCostsAMessage(text: seq<byte>, size: RefSize)
    requires IsUcs2(text) && |CodePoints(Utf8, text)| == 70
    ensures SplitDefined(text, Elements([]), Ucs2, size) && FitsMessage(text, [], Ucs2)
    ensures SplitOf(text, Elements([]), Ucs2, size).Some? && |SplitOf(text, Elements([]), Ucs2, size).value| == 2
  {
    hide RfcText, CodePoints, IsBmp, Ucs2Segments, EndOf;
    HeaderCounted(Elements([]));
    var more := Room(WithReference(1, size), Ucs2);
    assert text[0..] == text;
    Ucs2SegmentsAtMost(text, 0, more, 2);
    Ucs2Step(text, 0, more);
    Ucs2Step(text, EndOf(text, 0, more), more);
  }
}
