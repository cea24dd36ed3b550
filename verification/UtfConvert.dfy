/** The six strict conversion routines, each proved against the one specification of strict conversion. The
    source is a sequence read from position 0; the target is the part of an array between two indices. */
module UtfConvert {
  import opened Bits
  import opened UtfSpec
  import opened UtfLaws

  /** The part of the source before i has produced out; flagged remembers a unit above 0x10FFFF. */
  ghost predicate Progress(from: Form, to: Form, source: seq<nat>, room: nat, i: nat, out: seq<nat>, flagged: bool)
  {
    && i <= |source| && |out| <= room
    && Transcode(from, to, source, room)
       == Then(i, out, flagged, Transcode(from, to, source[i..], room - |out|))
  }

  /** before with out written from position start on. */
  ghost function Patched(before: seq<nat>, start: nat, out: seq<nat>): seq<nat>
    requires start + |out| <= |before|
  {
    before[..start] + out + before[start + |out|..]
  }

  lemma PatchAgain(before: seq<nat>, start: nat, out: seq<nat>, more: seq<nat>)
    requires start + |out| + |more| <= |before|
    ensures |Patched(before, start, out)| == |before|
    ensures Patched(Patched(before, start, out), start + |out|, more) == Patched(before, start, out + more)
  {
  }

  lemma PatchNothing(before: seq<nat>, start: nat)
    requires start <= |before|
    ensures Patched(before, start, []) == before
  {
  }

  /** What a routine returns: the outcome, with the target changed only where output was written. */
  twostate predicate Converted(from: Form, to: Form, source: seq<nat>, target: array<nat>, targetStart: nat,
                               targetEnd: nat,
                               result: Status, sourceNext: nat, targetNext: nat)
    requires targetStart <= targetEnd <= target.Length
    reads target
  {
    var run := Transcode(from, to, source, targetEnd - targetStart);
    && result == run.status
    && sourceNext == run.consumed
    && targetNext == targetStart + |run.out| <= targetEnd
    && target[..] == Patched(old(target[..]), targetStart, run.out)
  }

  lemma ProgressStart(from: Form, to: Form, source: seq<nat>, room: nat)
    ensures Progress(from, to, source, room, 0, [], false)
  {
    assert source[0..] == source;
  }

  /** The outcome when the rest of the source yields nothing. */
  lemma ProgressStops(from: Form, to: Form, source: seq<nat>, room: nat, i: nat, out: seq<nat>, flagged: bool,
                      last: Status)
    requires Progress(from, to, source, room, i, out, flagged)
    requires Transcode(from, to, source[i..], room - |out|) == Run(last, 0, [])
    ensures Transcode(from, to, source, room)
         == Run(if flagged && last == ConversionOK then SourceIllegal else last, i, out)
  {
    assert out + [] == out;
  }

  /** One character read and written. */
  lemma ProgressScalar(from: Form, to: Form, source: seq<nat>, room: nat, i: nat, out: seq<nat>, flagged: bool)
    requires Progress(from, to, source, room, i, out, flagged)
    requires i < |source| && Decode(from, source[i..]).Scalar?
    requires !(from.Utf32? && to.Utf16? && room == |out|)
    requires |out| + |Encode(to, Decode(from, source[i..]).cp)| <= room
    ensures Progress(from, to, source, room, i + Decode(from, source[i..]).len,
                     out + Encode(to, Decode(from, source[i..]).cp), flagged)
  {
    hide Encode, Decode;
    var Scalar(cp, len) := Decode(from, source[i..]);
    assert source[i..][len..] == source[i + len..];
    assert room - |out| - |Encode(to, cp)| == room - |out + Encode(to, cp)|;
  }

  /** A unit above 0x10FFFF passed over. */
  lemma ProgressTooLarge(to: Form, source: seq<nat>, room: nat, i: nat, out: seq<nat>, flagged: bool)
    requires Progress(Utf32, to, source, room, i, out, flagged)
    requires i < |source| && source[i] > 0x10FFFF
    requires !(to.Utf16? && room == |out|)
    requires |out| + |Replacement(to)| <= room
    ensures Progress(Utf32, to, source, room, i + 1, out + Replacement(to), true)
  {
    hide Encode, Replacement;
    assert Decode(Utf32, source[i..]).TooLarge?;
    assert source[i..][1..] == source[i + 1..];
    assert room - |out| - |Replacement(to)| == room - |out + Replacement(to)|;
  }

  // ---------- Reading and writing one character ----------

  /** ch <<= 6 and ch >>= 6. */
  lemma ShiftBySix(ch: nat)
    ensures Shl(ch, 6) == ch * 64 && Shr(ch, 6) == ch / 64
  {
    PowersOfTwo();
    ShlIsMul(ch, 6);
    ShrIsDiv(ch, 6);
  }

  /** (ch | byteMark) & byteMask: a continuation byte carries the low six bits. */
  lemma ContinuationByte(ch: nat)
    ensures BitAnd(BitOr(ch, 0x80), 0xBF) == 0x80 + ch % 0x40
  {
    PowersOfTwo();
    var m := ch % 0x40;
    MaskIsMod(ch, 6);
    MaskKeepsLowBits(ch, 6, 0);
    AddBelowIsOr(1, 7, m);
    ShlIsMul(1, 7);
    OnesBelow(6, 0);
    var x, y := BitAnd(BitOr(ch, 0x80), 0xBF), 0x80 + m;
    AndAtMost(BitOr(ch, 0x80), 0xBF);
    var b := seq(8, k requires 0 <= k < 8 => Bit(y, k));
    ShlIsMul(5, 5);
    AddBelowIsOr(5, 5, 0x1F);
    forall k | 0 <= k < 8
      ensures Bit(x, k) == b[k]
    {
      BitOfAnd(BitOr(ch, 0x80), 0xBF, k);
      BitOfOr(ch, 0x80, k);
      BitOfOr(0x80, m, k);
      MaskKeepsLowBits(ch, 6, k);
      BitsOf80AndBF(k);
    }
    FromBitsIsUnique(x, b);
    FromBitsIsUnique(y, b);
  }

  lemma BitsOf80AndBF(k: nat)
    requires k < 8
    ensures Bit(0x80, k) == (k == 7)
    ensures Bit(0xBF, k) == (k != 6)
  {
    assert Bit(0x80, 7) && !Bit(0x80, 6) && !Bit(0x80, 5) && !Bit(0x80, 4);
    assert !Bit(0x80, 3) && !Bit(0x80, 2) && !Bit(0x80, 1) && !Bit(0x80, 0);
    assert Bit(0xBF, 7) && !Bit(0xBF, 6) && Bit(0xBF, 5) && Bit(0xBF, 4);
    assert Bit(0xBF, 3) && Bit(0xBF, 2) && Bit(0xBF, 1) && Bit(0xBF, 0);
  }

  /** ch | firstByteMark[2], [3] and [4]. */
  lemma FirstByte(ch: nat)
    ensures ch < 0x20 ==> BitOr(ch, 0xC0) == 0xC0 + ch
    ensures ch < 0x10 ==> BitOr(ch, 0xE0) == 0xE0 + ch
    ensures ch < 0x08 ==> BitOr(ch, 0xF0) == 0xF0 + ch
    ensures BitOr(ch, 0) == ch
  {
    PowersOfTwo();
    OrZero(ch);
    ShlIsMul(6, 5);
    ShlIsMul(14, 4);
    ShlIsMul(30, 3);
    OrCommutes(ch, 0xC0);
    OrCommutes(ch, 0xE0);
    OrCommutes(ch, 0xF0);
    if ch < 0x20 {
      AddBelowIsOr(6, 5, ch);
    }
    if ch < 0x10 {
      AddBelowIsOr(14, 4, ch);
    }
    if ch < 0x08 {
      AddBelowIsOr(30, 3, ch);
    }
  }

  function ContinuationOf(ch: nat): (r: nat)
    ensures r == 0x80 + ch % 0x40
  {
    ContinuationByte(ch);
    BitAnd(BitOr(ch, 0x80), 0xBF)
  }

  function FirstByteMark(bytes: nat): nat
  {
    if bytes == 4 then 0xF0 else if bytes == 3 then 0xE0 else if bytes == 2 then 0xC0 else 0
  }

  function BytesToWrite(ch: nat): nat
  {
    if ch < 0x80 then 1 else if ch < 0x800 then 2 else if ch < 0x10000 then 3 else 4
  }

  lemma EncodedBytes(ch: nat)
    requires ch <= 0x10FFFF
    ensures var (b, c, d) := (ch / 64, ch / 64 / 64, ch / 64 / 64 / 64);
            Encode8(ch) == match BytesToWrite(ch)
                           case 1 => [ch]
                           case 2 => [0xC0 + b, 0x80 + ch % 64]
                           case 3 => [0xE0 + c, 0x80 + b % 64, 0x80 + ch % 64]
                           case _ => [0xF0 + d, 0x80 + c % 64, 0x80 + b % 64, 0x80 + ch % 64]
    ensures BytesToWrite(ch) == 2 ==> ch / 64 < 0x20
    ensures BytesToWrite(ch) == 3 ==> ch / 64 / 64 < 0x10
    ensures BytesToWrite(ch) == 4 ==> ch / 64 / 64 / 64 < 0x08
  {
    Recompose(ch);
    assert ch / 64 / 64 == ch / 0x1000 && ch / 0x1000 / 64 == ch / 0x40000;
  }

  /** The target with the bytes of e from the k-th on written. */
  ghost function Back(before: seq<nat>, t: nat, e: seq<nat>, k: nat): seq<nat>
    requires k <= |e| && t + |e| <= |before|
  {
    before[..t + k] + e[k..] + before[t + |e|..]
  }

  lemma BackStep(before: seq<nat>, t: nat, e: seq<nat>, k: nat)
    requires k <= |e| && t + |e| <= |before|
    ensures k == |e| ==> Back(before, t, e, k) == before
    ensures k > 0 ==> Back(before, t, e, k)[t + k - 1 := e[k - 1]] == Back(before, t, e, k - 1)
    ensures |Back(before, t, e, k)| == |before| && Back(before, t, e, 0) == Patched(before, t, e)
  {
  }

  /** One byte of the switch, written in front of those behind it. */
  method PutByte(target: array<nat>, p: nat, b: nat, ghost before: seq<nat>, ghost t: nat, ghost e: seq<nat>)
    requires t <= p < t + |e| <= |before| == target.Length && b == e[p - t]
    requires target[..] == Back(before, t, e, p - t + 1)
    modifies target
    ensures target[..] == Back(before, t, e, p - t)
  {
    hide Back;
    BackStep(before, t, e, p - t + 1);
    ghost var was := target[..];
    target[p] := b;
    assert target[..] == was[p := b];
  }

  /** The fall-through switch that writes a character backwards from its last byte. */
  method PutUtf8(target: array<nat>, t: nat, ch0: nat)
    requires ch0 <= 0x10FFFF && t + BytesToWrite(ch0) <= target.Length
    modifies target
    ensures |Encode8(ch0)| == BytesToWrite(ch0)
    ensures target[..] == Patched(old(target[..]), t, Encode8(ch0))
  {
    hide Encode8, BitOr, Shr, Shl, ContinuationOf, Back, Patched;
    var bytesToWrite := BytesToWrite(ch0);
    var ch := ch0;
    var p := t + bytesToWrite;
    EncodedBytes(ch0);
    ghost var e, before := Encode8(ch0), target[..];
    BackStep(before, t, e, |e|);
    BackStep(before, t, e, 0);
    if bytesToWrite >= 4 {
      p := p - 1;
      PutByte(target, p, ContinuationOf(ch), before, t, e);
      ShiftBySix(ch);
      ch := Shr(ch, 6);
    }
    if bytesToWrite >= 3 {
      p := p - 1;
      PutByte(target, p, ContinuationOf(ch), before, t, e);
      ShiftBySix(ch);
      ch := Shr(ch, 6);
    }
    if bytesToWrite >= 2 {
      p := p - 1;
      PutByte(target, p, ContinuationOf(ch), before, t, e);
      ShiftBySix(ch);
      ch := Shr(ch, 6);
    }
    p := p - 1;
    FirstByte(ch);
    PutByte(target, p, BitOr(ch, FirstByteMark(bytesToWrite)), before, t, e);
  }

  /** The fall-through switch that reads a character, extra continuation bytes long. */
  method GetUtf8(source: seq<nat>, s: nat, extra: nat) returns (ch: nat, next: nat)
    requires extra <= 3 && s + extra < |source| && IsLegalUtf8(source[s..], extra + 1)
    ensures ch == Value8(source[s..], extra) && next == s + extra + 1
  {
    hide Shl, Shr, IsLegalUtf8;
    ch, next := 0, s;
    if extra >= 3 {
      ShiftBySix(ch + source[next]);
      ch, next := Shl(ch + source[next], 6), next + 1;
    }
    if extra >= 2 {
      ShiftBySix(ch + source[next]);
      ch, next := Shl(ch + source[next], 6), next + 1;
    }
    if extra >= 1 {
      ShiftBySix(ch + source[next]);
      ch, next := Shl(ch + source[next], 6), next + 1;
    }
    ch, next := ch + source[next], next + 1;
    assert source[s..][extra] == source[s + extra];
    ch := (ch - OffsetFromUtf8(extra)) % 0x1_0000_0000;
  }

  /** The part of the two routines from UTF-16 that reads a unit or a surrogate pair. */
  method GetUtf16(source: seq<nat>, s: nat) returns (failure: Status, ch: nat, next: nat)
    requires s < |source| && AreUnits(Utf16, source)
    ensures match Decode16(source[s..])
            case Scalar(cp, len) => failure == ConversionOK && ch == cp <= 0x10FFFF && next == s + len
            case Cut => failure == SourceExhausted
            case _ => failure == SourceIllegal
  {
    hide Shl;
    failure, ch, next := ConversionOK, source[s], s + 1;
    assert source[s] in source;
    if 0xD800 <= ch <= 0xDBFF {
      if next < |source| {
        var ch2 := source[next];
        if 0xDC00 <= ch2 <= 0xDFFF {
          TenBits(ch - 0xD800);
          ch, next := Shl(ch - 0xD800, 10) + (ch2 - 0xDC00) + 0x10000, next + 1;
        } else {
          failure := SourceIllegal;
        }
      } else {
        failure := SourceExhausted;
      }
    } else if 0xDC00 <= ch <= 0xDFFF {
      failure := SourceIllegal;
    }
  }

  method PutUnit(target: array<nat>, t: nat, u: nat)
    requires t < target.Length
    modifies target
    ensures target[..] == Patched(old(target[..]), t, [u])
  {
    target[t] := u;
  }

  /** ConvertUTF8toUTF16. */
  method ConvertUtf8ToUtf16(source: seq<nat>, target: array<nat>, targetStart: nat, targetEnd: nat)
    returns (result: Status, sourceNext: nat, targetNext: nat)
    requires AreUnits(Utf8, source) && targetStart <= targetEnd <= target.Length
    modifies target
    ensures Converted(Utf8, Utf16, source, target, targetStart, targetEnd, result, sourceNext, targetNext)
  {
    hide Progress, Patched, Encode8, Value8, SecondByteLegal;
    result, sourceNext, targetNext := ConversionOK, 0, targetStart;
    ghost var out: seq<nat>, room, before := [], targetEnd - targetStart, target[..];
    ProgressStart(Utf8, Utf16, source, room);
    PatchNothing(before, targetStart);
    while sourceNext < |source|
      invariant sourceNext <= |source| && Progress(Utf8, Utf16, source, room, sourceNext, out, false)
      invariant targetNext == targetStart + |out| <= targetEnd
      invariant target[..] == Patched(before, targetStart, out)
      invariant result == ConversionOK
    {
      ghost var rest := source[sourceNext..];
      var extra := Trailing(source[sourceNext]);
      if sourceNext + extra >= |source| {
        result := SourceExhausted;
        break;
      }
      if !IsLegalUtf8(source[sourceNext..], extra + 1) {
        result := SourceIllegal;
        break;
      }
      var ch, next := GetUtf8(source, sourceNext, extra);
      assert Decode(Utf8, rest) == Scalar(ch, extra + 1);
      DecodedIsScalar8(rest);
      if targetNext >= targetEnd {
        result := TargetExhausted;
        break;
      }
      if ch <= 0xFFFF {
        PutUnit(target, targetNext, ch);
        targetNext := targetNext + 1;
      } else {
        if targetNext + 1 >= targetEnd {
          result := TargetExhausted;
          break;
        }
        PutSurrogates(target, targetNext, ch);
        targetNext := targetNext + 2;
      }
      ProgressScalar(Utf8, Utf16, source, room, sourceNext, out, false);
      PatchAgain(before, targetStart, out, Encode16(ch));
      sourceNext, out := next, out + Encode16(ch);
    }
    ProgressStops(Utf8, Utf16, source, room, sourceNext, out, false, result);
  }

  /** ConvertUTF8toUTF32. */
  method ConvertUtf8ToUtf32(source: seq<nat>, target: array<nat>, targetStart: nat, targetEnd: nat)
    returns (result: Status, sourceNext: nat, targetNext: nat)
    requires AreUnits(Utf8, source) && targetStart <= targetEnd <= target.Length
    modifies target
    ensures Converted(Utf8, Utf32, source, target, targetStart, targetEnd, result, sourceNext, targetNext)
  {
    hide Progress, Patched, Encode8, Value8, SecondByteLegal;
    result, sourceNext, targetNext := ConversionOK, 0, targetStart;
    ghost var out: seq<nat>, room, before := [], targetEnd - targetStart, target[..];
    ProgressStart(Utf8, Utf32, source, room);
    PatchNothing(before, targetStart);
    while sourceNext < |source|
      invariant sourceNext <= |source| && Progress(Utf8, Utf32, source, room, sourceNext, out, false)
      invariant targetNext == targetStart + |out| <= targetEnd
      invariant target[..] == Patched(before, targetStart, out)
      invariant result == ConversionOK
    {
      ghost var rest := source[sourceNext..];
      var extra := Trailing(source[sourceNext]);
      if sourceNext + extra >= |source| {
        result := SourceExhausted;
        break;
      }
      if !IsLegalUtf8(source[sourceNext..], extra + 1) {
        result := SourceIllegal;
        break;
      }
      var ch, next := GetUtf8(source, sourceNext, extra);
      assert Decode(Utf8, rest) == Scalar(ch, extra + 1);
      DecodedIsScalar8(rest);
      if targetNext >= targetEnd {
        result := TargetExhausted;
        break;
      }
      PutUnit(target, targetNext, ch);
      ProgressScalar(Utf8, Utf32, source, room, sourceNext, out, false);
      PatchAgain(before, targetStart, out, [ch]);
      targetNext, sourceNext, out := targetNext + 1, next, out + [ch];
    }
    ProgressStops(Utf8, Utf32, source, room, sourceNext, out, false, result);
  }

  /** ConvertUTF16toUTF32. */
  method ConvertUtf16ToUtf32(source: seq<nat>, target: array<nat>, targetStart: nat, targetEnd: nat)
    returns (result: Status, sourceNext: nat, targetNext: nat)
    requires AreUnits(Utf16, source) && targetStart <= targetEnd <= target.Length
    modifies target
    ensures Converted(Utf16, Utf32, source, target, targetStart, targetEnd, result, sourceNext, targetNext)
  {
    hide Progress, Patched, Encode8, Decode16;
    result, sourceNext, targetNext := ConversionOK, 0, targetStart;
    ghost var out: seq<nat>, room, before := [], targetEnd - targetStart, target[..];
    ProgressStart(Utf16, Utf32, source, room);
    PatchNothing(before, targetStart);
    while sourceNext < |source|
      invariant sourceNext <= |source| && Progress(Utf16, Utf32, source, room, sourceNext, out, false)
      invariant targetNext == targetStart + |out| <= targetEnd
      invariant target[..] == Patched(before, targetStart, out)
      invariant result == ConversionOK
    {
      ghost var rest := source[sourceNext..];
      var failure, ch, next := GetUtf16(source, sourceNext);
      if failure != ConversionOK {
        result := failure;
        break;
      }
      assert Decode(Utf16, rest) == Scalar(ch, next - sourceNext);
      if targetNext >= targetEnd {
        result := TargetExhausted;
        break;
      }
      PutUnit(target, targetNext, ch);
      ProgressScalar(Utf16, Utf32, source, room, sourceNext, out, false);
      PatchAgain(before, targetStart, out, [ch]);
      targetNext, sourceNext, out := targetNext + 1, next, out + [ch];
    }
    ProgressStops(Utf16, Utf32, source, room, sourceNext, out, false, result);
  }

  /** ConvertUTF16toUTF8. */
  method ConvertUtf16ToUtf8(source: seq<nat>, target: array<nat>, targetStart: nat, targetEnd: nat)
    returns (result: Status, sourceNext: nat, targetNext: nat)
    requires AreUnits(Utf16, source) && targetStart <= targetEnd <= target.Length
    modifies target
    ensures Converted(Utf16, Utf8, source, target, targetStart, targetEnd, result, sourceNext, targetNext)
  {
    hide Progress, Patched, Encode8, Decode16;
    result, sourceNext, targetNext := ConversionOK, 0, targetStart;
    ghost var out: seq<nat>, room, before := [], targetEnd - targetStart, target[..];
    ProgressStart(Utf16, Utf8, source, room);
    PatchNothing(before, targetStart);
    while sourceNext < |source|
      invariant sourceNext <= |source| && Progress(Utf16, Utf8, source, room, sourceNext, out, false)
      invariant targetNext == targetStart + |out| <= targetEnd
      invariant target[..] == Patched(before, targetStart, out)
      invariant result == ConversionOK
    {
      ghost var rest := source[sourceNext..];
      var failure, ch, next := GetUtf16(source, sourceNext);
      if failure != ConversionOK {
        result := failure;
        break;
      }
      assert Decode(Utf16, rest) == Scalar(ch, next - sourceNext);
      EncodedBytes(ch);
      var bytesToWrite := BytesToWrite(ch);
      if targetNext + bytesToWrite > targetEnd {
        result := TargetExhausted;
        break;
      }
      PutUtf8(target, targetNext, ch);
      ProgressScalar(Utf16, Utf8, source, room, sourceNext, out, false);
      PatchAgain(before, targetStart, out, Encode8(ch));
      targetNext, sourceNext, out := targetNext + bytesToWrite, next, out + Encode8(ch);
    }
    ProgressStops(Utf16, Utf8, source, room, sourceNext, out, false, result);
  }

  /** ConvertUTF32toUTF16. */
  method ConvertUtf32ToUtf16(source: seq<nat>, target: array<nat>, targetStart: nat, targetEnd: nat)
    returns (result: Status, sourceNext: nat, targetNext: nat)
    requires AreUnits(Utf32, source) && targetStart <= targetEnd <= target.Length
    modifies target
    ensures Converted(Utf32, Utf16, source, target, targetStart, targetEnd, result, sourceNext, targetNext)
  {
    hide Progress, Patched, Encode8;
    result, sourceNext, targetNext := ConversionOK, 0, targetStart;
    ghost var out: seq<nat>, room, before := [], targetEnd - targetStart, target[..];
    ghost var flagged, last := false, ConversionOK;
    ProgressStart(Utf32, Utf16, source, room);
    PatchNothing(before, targetStart);
    while sourceNext < |source|
      invariant sourceNext <= |source| && Progress(Utf32, Utf16, source, room, sourceNext, out, flagged)
      invariant targetNext == targetStart + |out| <= targetEnd
      invariant target[..] == Patched(before, targetStart, out)
      invariant result == if flagged then SourceIllegal else ConversionOK
    {
      ghost var rest := source[sourceNext..];
      if targetNext >= targetEnd {
        result, last := TargetExhausted, TargetExhausted;
        break;
      }
      var ch := source[sourceNext];
      if ch <= 0xFFFF {
        if 0xD800 <= ch <= 0xDFFF {
          result, last := SourceIllegal, SourceIllegal;
          break;
        }
        PutUnit(target, targetNext, ch);
        ProgressScalar(Utf32, Utf16, source, room, sourceNext, out, flagged);
        PatchAgain(before, targetStart, out, [ch]);
        targetNext, out := targetNext + 1, out + [ch];
      } else if ch > 0x10FFFF {
        ProgressTooLarge(Utf16, source, room, sourceNext, out, flagged);
        assert out + Replacement(Utf16) == out;
        result, flagged := SourceIllegal, true;
      } else {
        if targetNext + 1 >= targetEnd {
          result, last := TargetExhausted, TargetExhausted;
          break;
        }
        PutSurrogates(target, targetNext, ch);
        ProgressScalar(Utf32, Utf16, source, room, sourceNext, out, flagged);
        PatchAgain(before, targetStart, out, Encode16(ch));
        targetNext, out := targetNext + 2, out + Encode16(ch);
      }
      sourceNext := sourceNext + 1;
    }
    ProgressStops(Utf32, Utf16, source, room, sourceNext, out, flagged, last);
  }

  /** ConvertUTF32toUTF8. */
  method ConvertUtf32ToUtf8(source: seq<nat>, target: array<nat>, targetStart: nat, targetEnd: nat)
    returns (result: Status, sourceNext: nat, targetNext: nat)
    requires AreUnits(Utf32, source) && targetStart <= targetEnd <= target.Length
    modifies target
    ensures Converted(Utf32, Utf8, source, target, targetStart, targetEnd, result, sourceNext, targetNext)
  {
    hide Progress, Patched, Encode8;
    result, sourceNext, targetNext := ConversionOK, 0, targetStart;
    ghost var out: seq<nat>, room, before := [], targetEnd - targetStart, target[..];
    ghost var flagged, last := false, ConversionOK;
    ProgressStart(Utf32, Utf8, source, room);
    PatchNothing(before, targetStart);
    while sourceNext < |source|
      invariant sourceNext <= |source| && Progress(Utf32, Utf8, source, room, sourceNext, out, flagged)
      invariant targetNext == targetStart + |out| <= targetEnd
      invariant target[..] == Patched(before, targetStart, out)
      invariant result == if flagged then SourceIllegal else ConversionOK
    {
      ghost var rest := source[sourceNext..];
      var ch := source[sourceNext];
      if 0xD800 <= ch <= 0xDFFF {
        result, last := SourceIllegal, SourceIllegal;
        break;
      }
      var written := ch;
      if ch > 0x10FFFF {
        written := 0xFFFD;
        result := SourceIllegal;
      }
      EncodedBytes(written);
      var bytesToWrite := BytesToWrite(written);
      if targetNext + bytesToWrite > targetEnd {
        result, last := TargetExhausted, TargetExhausted;
        break;
      }
      PutUtf8(target, targetNext, written);
      if ch > 0x10FFFF {
        ReplacementIsFFFD();
        ProgressTooLarge(Utf8, source, room, sourceNext, out, flagged);
        flagged := true;
      } else {
        ProgressScalar(Utf32, Utf8, source, room, sourceNext, out, flagged);
      }
      PatchAgain(before, targetStart, out, Encode8(written));
      targetNext, sourceNext, out := targetNext + bytesToWrite, sourceNext + 1, out + Encode8(written);
    }
    ProgressStops(Utf32, Utf8, source, room, sourceNext, out, flagged, last);
  }

  lemma ReplacementIsFFFD()
    ensures Replacement(Utf8) == Encode8(0xFFFD)
  {
  }

  /** The two units of a character above 0xFFFF. */
  method PutSurrogates(target: array<nat>, t: nat, ch0: nat)
    requires 0xFFFF < ch0 <= 0x10FFFF && t + 2 <= target.Length
    modifies target
    ensures target[..] == Patched(old(target[..]), t, Encode16(ch0))
  {
    var ch := ch0 - 0x10000;
    TenBits(ch);
    target[t] := Shr(ch, 10) + 0xD800;
    target[t + 1] := BitAnd(ch, 0x3FF) + 0xDC00;
  }

  lemma TenBits(ch: nat)
    ensures Shr(ch, 10) == ch / 0x400 && BitAnd(ch, 0x3FF) == ch % 0x400 && Shl(ch, 10) == ch * 0x400
  {
    PowersOfTwo();
    assert Pow2(10) == 4 * Pow2(8);
    ShrIsDiv(ch, 10);
    MaskIsMod(ch, 10);
    ShlIsMul(ch, 10);
  }
}
