/** UTF-8 text carried as UCS2: counting and cutting characters, printing units and reading them back. */
module Ucs2Text {
  import opened CTypes
  import opened Hex
  import opened Sequences
  import opened UtfSpec
  import opened UtfLaws
  import opened UtfConvert

  /** next_char: where the character behind pos starts. A byte that leads no character does not advance. */
  function NextChar(text: seq<byte>, pos: nat): (next: nat)
    requires pos < |text|
  {
    var lead := text[pos];
    if lead < 0x80 then pos + 1
    else if 0xC0 <= lead <= 0xDF then pos + 2
    else if 0xE0 <= lead <= 0xEF then pos + 3
    else if 0xF0 <= lead <= 0xF7 then pos + 4
    else pos
  }

  /** In UTF-8 next_char steps over exactly one character. */
  lemma NextCharIsCharacter(text: seq<byte>, pos: nat)
    requires pos < |text| && RfcText(text[pos..])
    ensures Decode8(text[pos..]).Scalar? && RfcText(text[NextChar(text, pos)..])
    ensures NextChar(text, pos) == pos + Decode8(text[pos..]).len <= |text|
  {
    var s := text[pos..];
    var n :| 1 <= n <= |s| && n <= 4 && RfcChar(s[..n]) && RfcText(s[n..]);
    assert s == s[..n] + s[n..];
    RfcCharIsRead(s[..n], s[n..]);
    assert text[pos + n..] == s[n..];
  }

  /** Characters from pos on. */
  function CharCount(text: seq<byte>, pos: nat): nat
    requires pos <= |text|
  {
    |CodePoints(Utf8, text[pos..])|
  }

  lemma CharCountStep(text: seq<byte>, pos: nat)
    requires pos < |text| && RfcText(text[pos..])
    ensures NextChar(text, pos) <= |text| && RfcText(text[NextChar(text, pos)..])
    ensures CodePoints(Utf8, text[pos..])
         == [Decode8(text[pos..]).cp] + CodePoints(Utf8, text[NextChar(text, pos)..])
    ensures pos < NextChar(text, pos)
  {
    hide Decode8, RfcText;
    NextCharIsCharacter(text, pos);
    assert text[pos..][Decode8(text[pos..]).len..] == text[NextChar(text, pos)..];
  }

  /** utf8len. */
  method Utf8Len(text: seq<byte>) returns (ret: nat)
    requires RfcText(text)
    ensures ret == |CodePoints(Utf8, text)|
  {
    hide Decode8, RfcText, NextChar, CodePoints;
    ret := 0;
    var pos := 0;
    assert text[0..] == text;
    while pos < |text|
      invariant pos <= |text| && RfcText(text[pos..])
      invariant ret + CharCount(text, pos) == |CodePoints(Utf8, text)|
    {
      CharCountStep(text, pos);
      pos := NextChar(text, pos);
      ret := ret + 1;
    }
    NoCodePoints(text[pos..]);
  }

  lemma NoCodePoints(s: seq<nat>)
    ensures s == [] ==> CodePoints(Utf8, s) == []
  {
  }

  /** Where num characters from the front end. */
  function EndOf(text: seq<byte>, pos: nat, num: nat): (end: nat)
    requires pos <= |text| && RfcText(text[pos..])
    ensures pos <= end <= |text|
    decreases num
  {
    if num == 0 || pos == |text| then pos
    else
      CharCountStep(text, pos);
      EndOf(text, NextChar(text, pos), num - 1)
  }

  /** utf8_get_size, from position start of the text. */
  method Utf8GetSize(text: seq<byte>, start: nat, num0: nat) returns (ret: nat)
    requires start <= |text| && RfcText(text[start..])
    ensures start + ret == EndOf(text, start, num0)
  {
    hide RfcText, NextChar;
    var cur, num := start, num0;
    while num > 0 && cur < |text|
      invariant start <= cur <= |text| && RfcText(text[cur..])
      invariant EndOf(text, cur, num) == EndOf(text, start, num0)
      decreases num
    {
      CharCountStep(text, cur);
      cur, num := NextChar(text, cur), num - 1;
    }
    ret := cur - start;
  }

  /** The first num characters are those in front of EndOf. */
  lemma {:induction false} EndOfTakes(text: seq<byte>, pos: nat, num: nat)
    requires pos <= |text| && RfcText(text[pos..])
    ensures var end, cps := EndOf(text, pos, num), CodePoints(Utf8, text[pos..]);
            var n := if num <= |cps| then num else |cps|;
            && RfcText(text[end..])
            && CodePoints(Utf8, text[end..]) == cps[n..]
            && text[pos..end] == EncodeAll(Utf8, cps[..n])
    decreases num
  {
    hide RfcText, Encode8, Decode8, NextChar, CodePoints, EncodeAll, EndOf;
    EndOfStep(text, pos, num);
    if num == 0 || pos == |text| {
      NoCodePoints(text[pos..]);
    } else {
      var next := NextChar(text, pos);
      CharCountStep(text, pos);
      EndOfTakes(text, next, num - 1);
      var end, cps := EndOf(text, pos, num), CodePoints(Utf8, text[pos..]);
      var n := if num <= |cps| then num else |cps|;
      FrontIsEncoded(text, pos);
      assert cps[1..] == CodePoints(Utf8, text[next..]);
      assert cps[..n][1..] == cps[1..][..n - 1] && cps[n..] == cps[1..][n - 1..];
      EncodeAllStep(Utf8, cps[..n]);
      EncodeIsEncode8(cps[0]);
      assert text[pos..end] == text[pos..next] + text[next..end];
    }
  }

  lemma EncodeIsEncode8(cp: nat)
    ensures Encode(Utf8, cp) == Encode8(cp)
  {
  }

  lemma EndOfStep(text: seq<byte>, pos: nat, num: nat)
    requires pos <= |text| && RfcText(text[pos..])
    ensures num == 0 || pos == |text| ==> EndOf(text, pos, num) == pos && EncodeAll(Utf8, []) == []
    ensures num > 0 && pos < |text| ==>
              && NextChar(text, pos) <= |text| && RfcText(text[NextChar(text, pos)..])
              && EndOf(text, pos, num) == EndOf(text, NextChar(text, pos), num - 1)
  {
    hide RfcText, NextChar;
    if num > 0 && pos < |text| {
      CharCountStep(text, pos);
    }
  }

  lemma FrontIsEncoded(text: seq<byte>, pos: nat)
    requires pos < |text| && RfcText(text[pos..])
    ensures pos < NextChar(text, pos) <= |text|
    ensures text[pos..NextChar(text, pos)] == Encode8(Decode8(text[pos..]).cp)
  {
    var s := text[pos..];
    NextCharIsCharacter(text, pos);
    RfcTextStep(s);
    EncodeDecoded8(s);
    assert s[..Decode8(s).len] == text[pos..NextChar(text, pos)];
  }

  /** UTF-8 by the RFC is read completely. */
  lemma {:induction false} RfcTextIsRead(s: seq<nat>)
    requires RfcText(s)
    ensures IsRead(Utf8, s) && EncodeAll(Utf8, CodePoints(Utf8, s)) == s && AreScalars(CodePoints(Utf8, s))
    decreases |s|
  {
    if s != [] {
      var n :| 1 <= n <= |s| && n <= 4 && RfcChar(s[..n]) && RfcText(s[n..]);
      assert s == s[..n] + s[n..];
      RfcCharIsRead(s[..n], s[n..]);
      RfcTextIsRead(s[n..]);
      DecodedIsScalar8(s);
      assert CodePoints(Utf8, s)[1..] == CodePoints(Utf8, s[n..]);
      ReencodedIffRfc(s);
    }
  }

  // ---------- Units as text ----------

  type unit = n: nat | n < 0x1_0000

  function PrintUnits(units: seq<unit>): string
  {
    if units == [] then "" else PrintUnits(units[..|units| - 1]) + PrintHex(units[|units| - 1], 4)
  }

  lemma PrintUnitsSnoc(a: seq<unit>, u: unit)
    ensures PrintUnits(a + [u]) == PrintUnits(a) + PrintHex(u, 4)
  {
    hide PrintHex;
    assert (a + [u])[..|a + [u]| - 1] == a;
  }

  lemma {:induction false} PrintUnitsConcat(a: seq<unit>, b: seq<unit>)
    ensures PrintUnits(a + b) == PrintUnits(a) + PrintUnits(b)
  {
    hide PrintHex;
    if b == [] {
      assert a + b == a;
    } else {
      hide PrintUnits;
      var b', u := b[..|b| - 1], b[|b| - 1];
      PrintUnitsConcat(a, b');
      assert a + b == (a + b') + [u] && b == b' + [u];
      PrintUnitsSnoc(a + b', u);
      PrintUnitsSnoc(b', u);
      ConcatAssociates(PrintUnits(a), PrintUnits(b'), PrintHex(u, 4));
    }
  }

  lemma {:induction false} PrintUnitsLength(units: seq<unit>)
    ensures |PrintUnits(units)| == 4 * |units|
  {
    hide PrintHex;
    if units != [] {
      PrintUnitsLength(units[..|units| - 1]);
      ReadFour("", units[|units| - 1], "");
    }
  }

  lemma ReadUnitAround(pre: string, a: seq<unit>, u: unit, b: seq<unit>, post: string)
    ensures ReadHex(pre + PrintUnits(a + [u] + b) + post, |pre| + 4 * |a|, 4) == u
  {
    hide PrintHex, ReadHex, PrintUnits;
    PrintUnitsLength(a);
    PrintUnitsConcat(a + [u], b);
    PrintUnitsSnoc(a, u);
    ReadFour(pre + PrintUnits(a), u, PrintUnits(b) + post);
    Regroup(pre, PrintUnits(a), PrintHex(u, 4), PrintUnits(b), post);
  }

  /** Unit i is read back at character 4i. */
  lemma ReadUnit(pre: string, units: seq<unit>, post: string, i: nat)
    requires i < |units|
    ensures ReadHex(pre + PrintUnits(units) + post, |pre| + 4 * i, 4) == units[i]
  {
    hide PrintHex, ReadHex, PrintUnits;
    SplitAt(units, i);
    ReadUnitAround(pre, units[..i], units[i], units[i + 1..], post);
  }

  /** What utf32toutf8 appends for one code: nothing for 0 or a surrogate. */
  function Utf8OfUnit(code: nat): seq<nat>
  {
    if code == 0 || IsSurrogate(code) then [] else Encode8(code)
  }

  /** The text of len units printed from character index on. */
  function DecodedUnits(data: string, index: nat, len: nat): seq<nat>
  {
    if len == 0 then [] else DecodedUnits(data, index, len - 1) + Utf8OfUnit(ReadHex(data, index + 4 * (len - 1), 4))
  }

  /** Three octets for every unit hold the text; the NUL that is written behind it has a place among them exactly
      unless every unit is a character of three octets. */
  lemma {:induction false} PlaceForNul(data: string, index: nat, len: nat)
    ensures |DecodedUnits(data, index, len)| <= 3 * len
    ensures |DecodedUnits(data, index, len)| < 3 * len
       <==> exists i :: 0 <= i < len && !TakesThree(ReadHex(data, index + 4 * i, 4))
  {
    hide ReadHex, Utf8OfUnit, TakesThree;
    if len > 0 {
      var u := ReadHex(data, index + 4 * (len - 1), 4);
      ReadFourIsUnit(data, index + 4 * (len - 1));
      UnitTakes(u);
      PlaceForNul(data, index, len - 1);
      if TakesThree(u) && |DecodedUnits(data, index, len)| < 3 * len {
        assert |DecodedUnits(data, index, len - 1)| < 3 * (len - 1);
      }
    }
  }

  predicate TakesThree(unit: nat)
  {
    unit >= 0x800 && !IsSurrogate(unit)
  }

  lemma UnitTakes(unit: nat)
    requires unit < 0x1_0000
    ensures |Utf8OfUnit(unit)| <= 3 && (|Utf8OfUnit(unit)| == 3 <==> TakesThree(unit))
  {
  }

  /** Characters of the basic multilingual plane other than NUL: one UTF-16 unit each. */
  ghost predicate IsBmp(cps: seq<nat>)
  {
    forall i :: 0 <= i < |cps| ==> 0 < cps[i] <= 0xFFFF && !IsSurrogate(cps[i])
  }

  lemma {:induction false} BmpUnits(cps: seq<nat>)
    requires IsBmp(cps)
    ensures EncodeAll(Utf16, cps) == cps
  {
    if cps != [] {
      BmpUnits(cps[1..]);
    }
  }

  /** Units of the plane are read back as the UTF-8 of the characters. */
  lemma {:induction false} UnitsRoundTrip(pre: string, units: seq<unit>, post: string, n: nat)
    requires IsBmp(units) && n <= |units|
    ensures DecodedUnits(pre + PrintUnits(units) + post, |pre|, n) == EncodeAll(Utf8, units[..n])
  {
    hide ReadHex, PrintUnits, Encode8;
    if n > 0 {
      UnitsRoundTrip(pre, units, post, n - 1);
      ReadUnit(pre, units, post, n - 1);
      assert units[..n] == units[..n - 1] + [units[n - 1]];
      EncodeAllSnoc(Utf8, units[..n - 1], units[n - 1]);
    }
  }

  lemma {:induction false} EncodeAllConcat(form: Form, a: seq<nat>, b: seq<nat>)
    ensures EncodeAll(form, a + b) == EncodeAll(form, a) + EncodeAll(form, b)
  {
    hide Encode;
    if a == [] {
      assert a + b == b;
    } else {
      assert (a + b)[0] == a[0] && (a + b)[1..] == a[1..] + b;
      EncodeAllConcat(form, a[1..], b);
    }
  }

  lemma EncodeAllSnoc(form: Form, a: seq<nat>, cp: nat)
    ensures EncodeAll(form, a + [cp]) == EncodeAll(form, a) + Encode(form, cp)
  {
    hide Encode;
    EncodeAllConcat(form, a, [cp]);
    assert [cp][1..] == [];
  }
}
