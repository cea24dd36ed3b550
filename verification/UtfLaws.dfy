/** Laws of strict conversion: which UTF-8 the program accepts, round trips, composition, and resumption. */
module UtfLaws {
  import opened UtfSpec

  // ---------- isLegalUTF8 against RFC 3629 section 4 ----------

  predicate Tail(b: nat)
  {
    0x80 <= b <= 0xBF
  }

  /** UTF8-char of the ABNF in RFC 3629 section 4. */
  predicate RfcChar(s: seq<nat>)
  {
    match |s|
    case 1 => s[0] <= 0x7F
    case 2 => 0xC2 <= s[0] <= 0xDF && Tail(s[1])
    case 3 =>
      Tail(s[2]) && (|| (s[0] == 0xE0 && 0xA0 <= s[1] <= 0xBF)
                     || (0xE1 <= s[0] <= 0xEC && Tail(s[1]))
                     || (s[0] == 0xED && 0x80 <= s[1] <= 0x9F)
                     || (0xEE <= s[0] <= 0xEF && Tail(s[1])))
    case 4 =>
      Tail(s[2]) && Tail(s[3]) && (|| (s[0] == 0xF0 && 0x90 <= s[1] <= 0xBF)
                                   || (0xF1 <= s[0] <= 0xF3 && Tail(s[1]))
                                   || (s[0] == 0xF4 && 0x80 <= s[1] <= 0x8F))
    case _ => false
  }

  /** After a lead byte 0xED or 0xF4 the second byte is bounded above but not below. */
  predicate InGap(s: seq<nat>)
  {
    || (|s| == 3 && s[0] == 0xED && s[1] < 0x80 && Tail(s[2]))
    || (|s| == 4 && s[0] == 0xF4 && s[1] < 0x80 && Tail(s[2]) && Tail(s[3]))
  }

  /** On the length its lead byte announces, isLegalUTF8 agrees with the RFC exactly outside the gap; inside
      the gap it accepts what the RFC excludes. */
  lemma LegalUtf8VersusRfc(s: seq<nat>)
    requires s != [] && |s| == Trailing(s[0]) + 1
    ensures (IsLegalUtf8(s, |s|) <==> RfcChar(s)) <==> !InGap(s)
    ensures IsLegalUtf8(s, |s|) <==> RfcChar(s) || InGap(s)
  {
  }

  /** A sequence the RFC excludes and the program takes for U+C040. */
  lemma IllFormedAccepted()
    ensures !RfcChar([0xED, 0x41, 0x80])
    ensures Decode8([0xED, 0x41, 0x80]) == Scalar(0xC040, 3)
    ensures Encode8(0xC040) == [0xEC, 0x81, 0x80]
  {
  }

  /** Even from the gap no surrogate and nothing above 0x10FFFF is read. */
  lemma DecodedIsScalar(form: Form, s: seq<nat>)
    requires s != [] && AreUnits(form, s) && Decode(form, s).Scalar?
    ensures IsScalar(Decode(form, s).cp)
  {
    assert s[0] in s;
  }

  // ---------- One scalar value ----------

  lemma EncodedIsRfcChar(cp: nat)
    requires IsScalar(cp)
    ensures RfcChar(Encode8(cp))
  {
    if 0x10000 <= cp {
      FourAreRfcChar(cp / 0x40000, cp / 0x1000 % 0x40, cp / 0x40 % 0x40, cp % 0x40, cp);
    } else if 0x800 <= cp {
      ThreeAreRfcChar(cp / 0x1000, cp / 0x40 % 0x40, cp % 0x40, cp);
    }
  }

  lemma FourAreRfcChar(a: nat, b: nat, c: nat, d: nat, cp: nat)
    requires 0x10000 <= cp <= 0x10FFFF
    requires a == cp / 0x40000 && b == cp / 0x1000 % 0x40 && c == cp / 0x40 % 0x40 && d == cp % 0x40
    ensures RfcChar([0xF0 + a, 0x80 + b, 0x80 + c, 0x80 + d])
  {
    Recompose(cp);
    assert a <= 4 && cp / 0x1000 == 0x40 * a + b;
  }

  lemma ThreeAreRfcChar(a: nat, b: nat, c: nat, cp: nat)
    requires 0x800 <= cp < 0x10000 && !IsSurrogate(cp)
    requires a == cp / 0x1000 && b == cp / 0x40 % 0x40 && c == cp % 0x40
    ensures RfcChar([0xE0 + a, 0x80 + b, 0x80 + c])
  {
    Recompose(cp);
    assert a <= 15 && cp / 0x40 == 0x40 * a + b;
  }

  lemma Recompose(cp: nat)
    ensures cp == 0x40 * (cp / 0x40) + cp % 0x40
    ensures cp / 0x40 == 0x40 * (cp / 0x1000) + cp / 0x40 % 0x40
    ensures cp / 0x1000 == 0x40 * (cp / 0x40000) + cp / 0x1000 % 0x40
  {
    assert cp / 0x40 / 0x40 == cp / 0x1000 && cp / 0x1000 / 0x40 == cp / 0x40000;
  }

  lemma ValueOfEncoded(cp: nat)
    requires IsScalar(cp)
    ensures Value8(Encode8(cp), |Encode8(cp)| - 1) == cp
  {
    Recompose(cp);
  }

  lemma RfcCharIsRead(s: seq<nat>, rest: seq<nat>)
    requires RfcChar(s)
    ensures Decode8(s + rest) == Decode8(s) == Scalar(Value8(s, |s| - 1), |s|)
  {
    assert Trailing(s[0]) + 1 == |s|;
  }

  lemma DecodeEncoded8(cp: nat, rest: seq<nat>)
    requires IsScalar(cp)
    ensures Decode8(Encode8(cp) + rest) == Scalar(cp, |Encode8(cp)|)
  {
    hide Encode8, Decode8, Value8;
    EncodedIsRfcChar(cp);
    RfcCharIsRead(Encode8(cp), rest);
    ValueOfEncoded(cp);
  }

  /** A scalar value is read back from its encoding, whatever follows. */
  lemma DecodeEncoded(form: Form, cp: nat, rest: seq<nat>)
    requires IsScalar(cp)
    ensures Encode(form, cp) + rest != []
    ensures Decode(form, Encode(form, cp) + rest) == Scalar(cp, |Encode(form, cp)|)
  {
    match form
    case Utf8 => DecodeEncoded8(cp, rest);
    case Utf16 =>
    case Utf32 =>
  }

  lemma EncodeTwo(a: nat, b: nat)
    requires 0xC2 <= a <= 0xDF && Tail(b)
    ensures Encode8(a * 64 + b - 0x3080) == [a, b]
  {
    var cp := (a - 0xC0) * 0x40 + (b - 0x80);
    assert cp / 0x40 == a - 0xC0 && cp % 0x40 == b - 0x80;
  }

  lemma EncodeThree(a: nat, b: nat, c: nat)
    requires RfcChar([a, b, c])
    ensures Encode8((a * 64 + b) * 64 + c - 0xE2080) == [a, b, c]
  {
    var hi := (a - 0xE0) * 0x40 + (b - 0x80);
    var cp := hi * 0x40 + (c - 0x80);
    assert cp / 0x40 == hi && cp % 0x40 == c - 0x80;
    assert hi / 0x40 == a - 0xE0 && hi % 0x40 == b - 0x80;
    assert cp / 0x1000 == hi / 0x40;
  }

  lemma EncodeFour(a: nat, b: nat, c: nat, d: nat)
    requires RfcChar([a, b, c, d])
    ensures Encode8(((a * 64 + b) * 64 + c) * 64 + d - 0x3C82080) == [a, b, c, d]
  {
    var top := (a - 0xF0) * 0x40 + (b - 0x80);
    var hi := top * 0x40 + (c - 0x80);
    var cp := hi * 0x40 + (d - 0x80);
    assert cp / 0x40 == hi && cp % 0x40 == d - 0x80;
    assert hi / 0x40 == top && hi % 0x40 == c - 0x80;
    assert top / 0x40 == a - 0xF0 && top % 0x40 == b - 0x80;
    assert cp / 0x1000 == hi / 0x40 && cp / 0x40000 == cp / 0x1000 / 0x40;
  }

  lemma EncodeRfcChar(s: seq<nat>)
    requires RfcChar(s)
    ensures Encode8(Value8(s, |s| - 1)) == s
  {
    hide Encode8;
    match |s|
    case 1 => OneByte(s[0]);
    case 2 => EncodeTwo(s[0], s[1]);
    case 3 => assert s == [s[0], s[1], s[2]]; EncodeThree(s[0], s[1], s[2]);
    case 4 => assert s == [s[0], s[1], s[2], s[3]]; EncodeFour(s[0], s[1], s[2], s[3]);
  }

  lemma OneByte(a: nat)
    requires a < 0x80
    ensures Encode8(a) == [a]
  {
  }

  /** UTF-8 that is read is the encoding of what it is read as exactly when it follows the RFC. */
  lemma EncodeDecoded8(s: seq<nat>)
    requires s != [] && Decode8(s).Scalar?
    ensures Encode8(Decode8(s).cp) == s[..Decode8(s).len] <==> RfcChar(s[..Decode8(s).len])
  {
    var u := s[..Decode8(s).len];
    assert Decode8(u) == Decode8(s);
    DecodedIsScalar8(u);
    EncodedIsRfcChar(Decode8(s).cp);
    if RfcChar(u) {
      RfcCharIsRead(u, []);
      EncodeRfcChar(u);
    }
  }

  lemma DecodedIsScalar8(s: seq<nat>)
    requires s != [] && Decode8(s).Scalar?
    ensures IsScalar(Decode8(s).cp)
  {
  }

  // ---------- Whole texts ----------

  ghost predicate AreScalars(cps: seq<nat>)
  {
    forall cp :: cp in cps ==> IsScalar(cp)
  }

  /** Well-formed text is converted completely into the encoding of the same scalar values. */
  lemma {:induction false} WellFormedConverts(from: Form, to: Form, cps: seq<nat>, room: nat)
    requires AreScalars(cps) && room >= |EncodeAll(to, cps)|
    ensures Transcode(from, to, EncodeAll(from, cps), room)
         == Run(ConversionOK, |EncodeAll(from, cps)|, EncodeAll(to, cps))
  {
    hide Encode, Decode, Transcode, EncodeAll;
    if cps == [] {
      NothingConverts(from, to, room);
      NothingConverts(to, from, room);
    } else {
      var cp, rest := cps[0], cps[1..];
      var src := EncodeAll(from, cps);
      EncodeAllStep(from, cps);
      EncodeAllStep(to, cps);
      DecodeEncoded(from, cp, EncodeAll(from, rest));
      assert src[|Encode(from, cp)|..] == EncodeAll(from, rest);
      TranscodeScalar(from, to, src, room);
      WellFormedConverts(from, to, rest, room - |Encode(to, cp)|);
    }
  }

  lemma NothingConverts(from: Form, to: Form, room: nat)
    ensures EncodeAll(from, []) == [] && Transcode(from, to, [], room) == Run(ConversionOK, 0, [])
  {
  }

  lemma EncodeAllStep(form: Form, cps: seq<nat>)
    requires cps != []
    ensures EncodeAll(form, cps) == Encode(form, cps[0]) + EncodeAll(form, cps[1..])
  {
  }

  /** One step of a conversion, at a scalar value. */
  lemma TranscodeScalar(from: Form, to: Form, src: seq<nat>, room: nat)
    requires src != [] && Decode(from, src).Scalar?
    ensures var d := Decode(from, src);
            Transcode(from, to, src, room)
            == if |Encode(to, d.cp)| > room then Run(TargetExhausted, 0, [])
               else Then(d.len, Encode(to, d.cp), false, Transcode(from, to, src[d.len..], room - |Encode(to, d.cp)|))
  {
    hide Encode, Decode;
    EncodeNotEmpty(to, Decode(from, src).cp);
  }

  lemma EncodeNotEmpty(form: Form, cp: nat)
    ensures |Encode(form, cp)| > 0
  {
  }

  /** Converting well-formed text there and back gives it back, for any two forms. */
  lemma ConversionsAreInverse(a: Form, b: Form, cps: seq<nat>, there: nat, back: nat)
    requires AreScalars(cps) && there >= |EncodeAll(b, cps)| && back >= |EncodeAll(a, cps)|
    ensures var text := EncodeAll(a, cps);
            var run := Transcode(a, b, text, there);
            run.status == ConversionOK && run.consumed == |text|
            && Transcode(b, a, run.out, back) == Run(ConversionOK, |run.out|, text)
  {
    WellFormedConverts(a, b, cps, there);
    WellFormedConverts(b, a, cps, back);
  }

  /** Going through a third form makes no difference. */
  lemma ConversionsCompose(a: Form, b: Form, c: Form, cps: seq<nat>, roomB: nat, roomC: nat)
    requires AreScalars(cps) && roomB >= |EncodeAll(b, cps)| && roomC >= |EncodeAll(c, cps)|
    ensures var text := EncodeAll(a, cps);
            Transcode(b, c, Transcode(a, b, text, roomB).out, roomC).out == Transcode(a, c, text, roomC).out
            && Transcode(b, c, Transcode(a, b, text, roomB).out, roomC).status == ConversionOK
  {
    WellFormedConverts(a, b, cps, roomB);
    WellFormedConverts(b, c, cps, roomC);
    WellFormedConverts(a, c, cps, roomC);
  }

  /** The scalar values read from the front of a source. */
  function CodePoints(form: Form, s: seq<nat>): seq<nat>
    decreases |s|
  {
    if s == [] then []
    else
      match Decode(form, s)
      case Scalar(cp, len) => [cp] + CodePoints(form, s[len..])
      case _ => []
  }

  ghost predicate IsRead(form: Form, s: seq<nat>)
    decreases |s|
  {
    s != [] ==> Decode(form, s).Scalar? && IsRead(form, s[Decode(form, s).len..])
  }

  /** A conversion that succeeds has read the whole source and written the encoding of what it read. */
  lemma {:induction false} SuccessMeansRead(from: Form, to: Form, s: seq<nat>, room: nat)
    requires AreUnits(from, s) && Transcode(from, to, s, room).status == ConversionOK
    ensures IsRead(from, s) && AreScalars(CodePoints(from, s))
    ensures Transcode(from, to, s, room) == Run(ConversionOK, |s|, EncodeAll(to, CodePoints(from, s)))
    decreases |s|
  {
    hide Encode, Decode, IsScalar;
    if s != [] {
      var Scalar(cp, len) := Decode(from, s);
      DecodedIsScalar(from, s);
      assert forall u :: u in s[len..] ==> u in s;
      SuccessMeansRead(from, to, s[len..], room - |Encode(to, cp)|);
      assert CodePoints(from, s)[1..] == CodePoints(from, s[len..]);
    }
  }

  /** UTF8-octets of RFC 3629 section 4: any number of UTF8-char. */
  ghost predicate RfcText(s: seq<nat>)
    decreases |s|
  {
    s == [] || exists n :: 1 <= n <= |s| && n <= 4 && RfcChar(s[..n]) && RfcText(s[n..])
  }

  lemma SameLength8(s: seq<nat>)
    requires s != [] && Decode8(s).Scalar?
    ensures |Encode8(Decode8(s).cp)| == Decode8(s).len
  {
    hide Value8, IsLegalUtf8;
    ValueHasLength(s, Trailing(s[0]));
  }

  lemma ValueHasLength(s: seq<nat>, extra: nat)
    requires extra < |s| && extra == Trailing(s[0]) && IsLegalUtf8(s, extra + 1)
    ensures var v := Value8(s, extra);
            extra == if v < 0x80 then 0 else if v < 0x800 then 1 else if v < 0x10000 then 2 else 3
  {
    if extra == 1 {
      assert Value8(s, 1) == s[0] * 64 + s[1] - 0x3080;
    } else if extra == 2 {
      assert Value8(s, 2) == (s[0] * 64 + s[1]) * 64 + s[2] - 0xE2080;
    } else if extra == 3 {
      assert Value8(s, 3) == ((s[0] * 64 + s[1]) * 64 + s[2]) * 64 + s[3] - 0x3C82080;
    }
  }

  lemma {:induction false} RfcTextStep(s: seq<nat>)
    requires s != [] && Decode8(s).Scalar?
    ensures RfcText(s) <==> RfcChar(s[..Decode8(s).len]) && RfcText(s[Decode8(s).len..])
  {
    var len := Decode8(s).len;
    forall n | 1 <= n <= |s| && n <= 4 && RfcChar(s[..n])
      ensures n == len
    {
      RfcCharIsRead(s[..n], s[n..]);
      assert s == s[..n] + s[n..];
    }
  }

  /** The encoding of scalar values is UTF-8 by the RFC and reads as those values. */
  lemma {:induction false} EncodedIsRfcText(cps: seq<nat>)
    requires AreScalars(cps)
    ensures RfcText(EncodeAll(Utf8, cps)) && CodePoints(Utf8, EncodeAll(Utf8, cps)) == cps
  {
    hide Encode8, Decode8, RfcChar;
    if cps != [] {
      var s, rest := EncodeAll(Utf8, cps), EncodeAll(Utf8, cps[1..]);
      EncodedIsRfcText(cps[1..]);
      DecodeEncoded8(cps[0], rest);
      EncodedIsRfcChar(cps[0]);
      assert s[..|Encode8(cps[0])|] == Encode8(cps[0]) && s[|Encode8(cps[0])|..] == rest;
      RfcTextStep(s);
    }
  }

  lemma {:induction false} ReencodedIffRfc(s: seq<nat>)
    requires IsRead(Utf8, s)
    ensures EncodeAll(Utf8, CodePoints(Utf8, s)) == s <==> RfcText(s)
    decreases |s|
  {
    hide Encode8, Decode8, RfcChar;
    if s != [] {
      var Scalar(cp, len) := Decode8(s);
      var again := EncodeAll(Utf8, CodePoints(Utf8, s[len..]));
      ReencodedIffRfc(s[len..]);
      RfcTextStep(s);
      EncodeDecoded8(s);
      SameLength8(s);
      assert CodePoints(Utf8, s)[1..] == CodePoints(Utf8, s[len..]);
      assert EncodeAll(Utf8, CodePoints(Utf8, s)) == Encode8(cp) + again;
      assert s == s[..len] + s[len..];
      if Encode8(cp) + again == s {
        assert s[..len] == Encode8(cp) && s[len..] == again;
      }
    }
  }

  /** UTF-8 that converts comes back unchanged exactly when it is UTF-8 by the RFC; the rest comes from the gap. */
  lemma Utf8RoundTripIffRfc(to: Form, s: seq<nat>, there: nat, back: nat)
    requires AreUnits(Utf8, s) && Transcode(Utf8, to, s, there).status == ConversionOK
    requires back >= |EncodeAll(Utf8, CodePoints(Utf8, s))|
    ensures Transcode(to, Utf8, Transcode(Utf8, to, s, there).out, back).out == s <==> RfcText(s)
  {
    SuccessMeansRead(Utf8, to, s, there);
    WellFormedConverts(to, Utf8, CodePoints(Utf8, s), back);
    ReencodedIffRfc(s);
  }

  /** UTF-16 and UTF-32 that is read is the encoding of what it is read as. */
  lemma EncodeDecodedWide(form: Form, s: seq<nat>)
    requires !form.Utf8? && s != [] && s[0] < Limit(form) && Decode(form, s).Scalar?
    ensures Encode(form, Decode(form, s).cp) == s[..Decode(form, s).len]
  {
  }

  lemma {:induction false} Reencoded(form: Form, s: seq<nat>)
    requires !form.Utf8? && AreUnits(form, s) && IsRead(form, s)
    ensures EncodeAll(form, CodePoints(form, s)) == s
    decreases |s|
  {
    hide Encode, Decode;
    if s != [] {
      var Scalar(cp, len) := Decode(form, s);
      assert s[0] in s && forall u :: u in s[len..] ==> u in s;
      Reencoded(form, s[len..]);
      EncodeDecodedWide(form, s);
      assert CodePoints(form, s)[1..] == CodePoints(form, s[len..]);
      assert s[..len] + s[len..] == s;
    }
  }

  /** UTF-16 and UTF-32 that convert always come back unchanged. */
  lemma WideRoundTrip(from: Form, to: Form, s: seq<nat>, there: nat, back: nat)
    requires !from.Utf8? && AreUnits(from, s) && Transcode(from, to, s, there).status == ConversionOK
    requires back >= |s|
    ensures Transcode(to, from, Transcode(from, to, s, there).out, back).out == s
  {
    SuccessMeansRead(from, to, s, there);
    Reencoded(from, s);
    WellFormedConverts(to, from, CodePoints(from, s), back);
  }

  // ---------- Stopping for want of room ----------

  lemma TranscodeStep(from: Form, to: Form, src: seq<nat>, room: nat)
    requires src != [] && !from.Utf32? && Decode(from, src).Scalar?
    ensures Transcode(from, to, src, room)
         == var out := Encode(to, Decode(from, src).cp);
            if |out| > room then Run(TargetExhausted, 0, [])
            else Then(Decode(from, src).len, out, false,
                      Transcode(from, to, src[Decode(from, src).len..], room - |out|))
  {
    hide Encode, Decode;
  }

  /** What is read at the front does not depend on what follows it. */
  lemma DecodeIsLocal(form: Form, s: seq<nat>, n: nat)
    requires s != [] && Decode(form, s).Scalar? && Decode(form, s).len <= n <= |s|
    ensures Decode(form, s[..n]) == Decode(form, s)
  {
  }

  /** A conversion that runs out of room has converted exactly the source in front of its stop, and stops
      between characters, in front of one that does not fit. */
  lemma {:induction false} StopsBetweenCharacters(from: Form, to: Form, src: seq<nat>, room: nat)
    requires !from.Utf32? && Transcode(from, to, src, room).status == TargetExhausted
    ensures var run := Transcode(from, to, src, room);
            && run.consumed < |src| && |run.out| <= room
            && Transcode(from, to, src[..run.consumed], |run.out|) == Run(ConversionOK, run.consumed, run.out)
            && Decode(from, src[run.consumed..]).Scalar?
            && |run.out| + |Encode(to, Decode(from, src[run.consumed..]).cp)| > room
    decreases |src|
  {
    hide Encode, Decode, Transcode;
    var run := Transcode(from, to, src, room);
    ExhaustedAtScalar(from, to, src, room);
    var Scalar(cp, len) := Decode(from, src);
    var out := Encode(to, cp);
    TranscodeScalar(from, to, src, room);
    if |out| > room {
      assert src[..0] == [] && src[0..] == src;
      NothingConverts(from, to, 0);
    } else {
      var rest := Transcode(from, to, src[len..], room - |out|);
      StopsBetweenCharacters(from, to, src[len..], room - |out|);
      assert src[run.consumed..] == src[len..][rest.consumed..];
      var front := src[..run.consumed];
      DecodeIsLocal(from, src, run.consumed);
      assert front[len..] == src[len..][..rest.consumed];
      TranscodeScalar(from, to, front, |run.out|);
    }
  }

  lemma ExhaustedAtScalar(from: Form, to: Form, src: seq<nat>, room: nat)
    requires !from.Utf32? && Transcode(from, to, src, room).status == TargetExhausted
    ensures src != [] && Decode(from, src).Scalar?
  {
    hide Encode;
    NeverTooLarge(from, src);
  }

  lemma NeverTooLarge(form: Form, src: seq<nat>)
    requires !form.Utf32?
    ensures src != [] ==> !Decode(form, src).TooLarge?
  {
  }

  /** A unit above 0x10FFFF among the first n: it is remembered, but only within one call. */
  ghost predicate PassedOver(from: Form, src: seq<nat>, n: nat)
  {
    from.Utf32? && exists i :: 0 <= i < n && i < |src| && src[i] > 0x10FFFF
  }

  /** Resuming behind the stop with fresh room gives together what one conversion with all the room gives, but for the
      memory of a unit passed over. */
  ghost predicate Resumes(from: Form, to: Form, src: seq<nat>, room: nat, more: nat)
  {
    var run := Transcode(from, to, src, room);
    && run.consumed <= |src|
    && (run.status == TargetExhausted
        ==> Transcode(from, to, src, |run.out| + more)
            == Then(run.consumed, run.out, PassedOver(from, src, run.consumed),
                    Transcode(from, to, src[run.consumed..], more)))
  }

  /** Resuming a conversion between any two forms gives what one call gives exactly unless a unit above 0x10FFFF was
      passed over and the rest is all scalar values whose encoding finds room: then the error is lost. */
  lemma ConversionResumes(from: Form, to: Form, src: seq<nat>, room: nat, more: nat)
    requires Transcode(from, to, src, room).status == TargetExhausted
    requires from.Utf32? && to.Utf16? ==> more > 0
    ensures var run := Transcode(from, to, src, room);
            && run.consumed <= |src|
            && var rest := src[run.consumed..];
            && (Transcode(from, to, src, |run.out| + more)
                == Then(run.consumed, run.out, false, Transcode(from, to, rest, more))
                <==> !(PassedOver(from, src, run.consumed) && AreScalars(rest) && |EncodeAll(to, rest)| <= more))
  {
    hide Transcode, PassedOver, EncodeAll, AreScalars;
    if from.Utf32? {
      ResumesFromUtf32(to, src, room, more);
      ConvertsIffScalars(to, src[Transcode(from, to, src, room).consumed..], more);
    } else {
      ResumesFromOthers(from, to, src, room, more);
      NothingPassedOver(from, src, Transcode(from, to, src, room).consumed);
    }
  }

  lemma NothingPassedOver(from: Form, src: seq<nat>, n: nat)
    requires !from.Utf32?
    ensures !PassedOver(from, src, n)
  {
  }

  /** UTF-32 converts without error exactly when it is all scalar values whose encoding finds room. */
  lemma {:induction false} ConvertsIffScalars(to: Form, src: seq<nat>, room: nat)
    ensures Transcode(Utf32, to, src, room).status == ConversionOK
       <==> AreScalars(src) && |EncodeAll(to, src)| <= room
    decreases |src|
  {
    hide Transcode, Encode, Replacement;
    if src == [] {
      NothingConverts(Utf32, to, room);
    } else {
      StepFrom32(to, src, room);
      EncodeAllStep(to, src);
      AllScalarsStep(src);
      if Steps32(to, src, room) {
        ConvertsIffScalars(to, src[1..], room - |Written(to, src[0])|);
      } else {
        StopsAtFirst(to, src, room);
      }
    }
  }

  lemma AllScalarsStep(src: seq<nat>)
    requires src != []
    ensures AreScalars(src) <==> IsScalar(src[0]) && AreScalars(src[1..])
  {
    if IsScalar(src[0]) && AreScalars(src[1..]) {
      assert src == [src[0]] + src[1..];
    }
  }

  lemma StopsAtFirst(to: Form, src: seq<nat>, room: nat)
    requires src != [] && !Steps32(to, src, room)
    ensures Transcode(Utf32, to, src, room).status != ConversionOK
  {
    hide Encode;
  }

  lemma {:induction false} ResumesFromOthers(from: Form, to: Form, src: seq<nat>, room: nat, more: nat)
    requires !from.Utf32?
    ensures Resumes(from, to, src, room, more)
    decreases |src|
  {
    hide Encode, Decode;
    if src != [] && Decode(from, src).Scalar? {
      var Scalar(cp, len) := Decode(from, src);
      if |Encode(to, cp)| <= room {
        ResumesFromOthers(from, to, src[len..], room - |Encode(to, cp)|, more);
        ResumeStep(from, to, src, room, more);
      } else {
        assert src[0..] == src;
      }
    }
  }

  lemma ResumeStep(from: Form, to: Form, src: seq<nat>, room: nat, more: nat)
    requires !from.Utf32? && src != [] && Decode(from, src).Scalar?
    requires |Encode(to, Decode(from, src).cp)| <= room
    requires Resumes(from, to, src[Decode(from, src).len..], room - |Encode(to, Decode(from, src).cp)|, more)
    ensures Resumes(from, to, src, room, more)
  {
    hide Encode, Decode, Transcode;
    var Scalar(cp, len) := Decode(from, src);
    var out := Encode(to, cp);
    var rest := Transcode(from, to, src[len..], room - |out|);
    var run := Transcode(from, to, src, room);
    TranscodeStep(from, to, src, room);
    assert src[run.consumed..] == src[len..][rest.consumed..];
    TranscodeStep(from, to, src, |run.out| + more);
    assert |run.out| + more - |out| == |rest.out| + more;
    var tail := Transcode(from, to, src[run.consumed..], more);
    assert out + (rest.out + tail.out) == run.out + tail.out;
  }

  /** What one UTF-32 unit becomes. */
  function Written(to: Form, unit: nat): seq<nat>
  {
    if unit > 0x10FFFF then Replacement(to) else Encode(to, unit)
  }

  /** One step from UTF-32 that does not stop in front of the unit. */
  predicate Steps32(to: Form, src: seq<nat>, room: nat)
  {
    src != [] && !IsSurrogate(src[0]) && !(to.Utf16? && room == 0) && |Written(to, src[0])| <= room
  }

  lemma StepFrom32(to: Form, src: seq<nat>, room: nat)
    requires src != []
    ensures Steps32(to, src, room) ==>
              Transcode(Utf32, to, src, room)
              == Then(1, Written(to, src[0]), src[0] > 0x10FFFF,
                      Transcode(Utf32, to, src[1..], room - |Written(to, src[0])|))
    ensures !Steps32(to, src, room) ==>
              && var run := Transcode(Utf32, to, src, room);
              && run.consumed == 0 && run.out == []
              && (run.status == TargetExhausted ==>
                  (to.Utf16? && room == 0) || (!IsSurrogate(src[0]) && |Written(to, src[0])| > room))
  {
    hide Encode, Replacement;
  }

  lemma PassedOverStep(src: seq<nat>, n: nat)
    requires src != [] && 0 < n <= |src|
    ensures PassedOver(Utf32, src, n) == (src[0] > 0x10FFFF || PassedOver(Utf32, src[1..], n - 1))
    ensures !PassedOver(Utf32, src, 0)
  {
    if PassedOver(Utf32, src[1..], n - 1) {
      var i :| 0 <= i < n - 1 && src[1..][i] > 0x10FFFF;
      assert src[i + 1] > 0x10FFFF;
    }
    if PassedOver(Utf32, src, n) && src[0] <= 0x10FFFF {
      var i :| 0 <= i < n && src[i] > 0x10FFFF;
      assert src[1..][i - 1] > 0x10FFFF;
    }
  }

  lemma {:induction false} ResumesFromUtf32(to: Form, src: seq<nat>, room: nat, more: nat)
    requires to.Utf16? ==> more > 0
    ensures Resumes(Utf32, to, src, room, more)
    decreases |src|
  {
    hide Written, Transcode, PassedOver;
    if src == [] {
      NothingConverts(Utf32, to, room);
    } else {
      StepFrom32(to, src, room);
      PassedOverStep(src, 1);
      if Steps32(to, src, room) {
        ResumesFromUtf32(to, src[1..], room - |Written(to, src[0])|, more);
        ResumeStep32(to, src, room, more);
      } else {
        assert src[0..] == src;
        assert [] + Transcode(Utf32, to, src, more).out == Transcode(Utf32, to, src, more).out;
      }
    }
  }

  lemma ResumeStep32(to: Form, src: seq<nat>, room: nat, more: nat)
    requires to.Utf16? ==> more > 0
    requires Steps32(to, src, room)
    requires Resumes(Utf32, to, src[1..], room - |Written(to, src[0])|, more)
    ensures Resumes(Utf32, to, src, room, more)
  {
    hide Written, Transcode, PassedOver;
    var out := Written(to, src[0]);
    var rest := Transcode(Utf32, to, src[1..], room - |out|);
    var run := Transcode(Utf32, to, src, room);
    StepFrom32(to, src, room);
    StepFrom32(to, src, |run.out| + more);
    PassedOverStep(src, run.consumed);
    assert src[run.consumed..] == src[1..][rest.consumed..];
    assert |run.out| + more - |out| == |rest.out| + more;
    var tail := Transcode(Utf32, to, src[run.consumed..], more);
    assert out + (rest.out + tail.out) == run.out + tail.out;
  }

  /** From UTF-32 a conversion that runs out of room has converted exactly the units in front of its stop, with the
      error of a unit passed over, and stops in front of one that does not fit, or towards UTF-16 of any one where no
      room is left. */
  lemma {:induction false} StopsBetweenUnits(to: Form, src: seq<nat>, room: nat)
    requires Transcode(Utf32, to, src, room).status == TargetExhausted
    ensures var run := Transcode(Utf32, to, src, room);
            && run.consumed < |src| && |run.out| <= room
            && Transcode(Utf32, to, src[..run.consumed], room)
               == Run(if PassedOver(Utf32, src, run.consumed) then SourceIllegal else ConversionOK,
                      run.consumed, run.out)
            && ((to.Utf16? && |run.out| == room)
                || (!IsSurrogate(src[run.consumed]) && |run.out| + |Written(to, src[run.consumed])| > room))
    decreases |src|
  {
    hide Written, Transcode, PassedOver;
    if src == [] {
      NothingConverts(Utf32, to, room);
    } else {
      StepFrom32(to, src, room);
      PassedOverStep(src, 1);
      if Steps32(to, src, room) {
        var out := Written(to, src[0]);
        StopsBetweenUnits(to, src[1..], room - |out|);
        var run := Transcode(Utf32, to, src, room);
        var front := src[..run.consumed];
        assert front[1..] == src[1..][..run.consumed - 1];
        StepFrom32(to, front, room);
        PassedOverStep(src, run.consumed);
      } else {
        assert src[..0] == [];
        NothingConverts(Utf32, to, room);
      }
    }
  }

  /** An input whose error is lost by resumption. */
  lemma ResumptionForgetsTooLarge()
    ensures Transcode(Utf32, Utf16, [0x110000, 0x41, 0x42], 2) == Run(SourceIllegal, 3, [0x41, 0x42])
    ensures Transcode(Utf32, Utf16, [0x110000, 0x41, 0x42], 1) == Run(TargetExhausted, 2, [0x41])
    ensures Transcode(Utf32, Utf16, [0x42], 1) == Run(ConversionOK, 1, [0x42])
  {
    hide Transcode, Encode, Decode;
    var s, t, u: seq<nat> := [0x110000, 0x41, 0x42], [0x41, 0x42], [0x42];
    assert s[1..] == t && t[1..] == u && u[1..] == [];
    PlainStep(u, 1);
    PlainStep(u, 0);
    PlainStep(t, 2);
    PlainStep(t, 1);
    NothingConverts(Utf32, Utf16, 0);
    TooLargeStep(s, 2);
    TooLargeStep(s, 1);
  }

  /** One step from UTF-32 to UTF-16, at a character of one unit. */
  lemma PlainStep(s: seq<nat>, room: nat)
    requires s != [] && s[0] < 0xD800
    ensures Transcode(Utf32, Utf16, s, room)
         == if room == 0 then Run(TargetExhausted, 0, [])
            else Then(1, [s[0]], false, Transcode(Utf32, Utf16, s[1..], room - 1))
  {
    hide Transcode;
    assert Decode(Utf32, s) == Scalar(s[0], 1) && Encode(Utf16, s[0]) == [s[0]];
    TranscodeScalar(Utf32, Utf16, s, room);
  }

  /** One step from UTF-32 to UTF-16, at a value above all code points. */
  lemma TooLargeStep(s: seq<nat>, room: nat)
    requires s != [] && s[0] > 0x10FFFF && room > 0
    ensures Transcode(Utf32, Utf16, s, room) == Then(1, [], true, Transcode(Utf32, Utf16, s[1..], room))
  {
    assert Decode(Utf32, s).TooLarge?;
  }
}
