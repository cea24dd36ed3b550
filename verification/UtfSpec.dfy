/** The three Unicode encoding forms and one specification of strict conversion between any two of them.
    UTF-8 follows RFC 3629 sections 3 and 4, UTF-16 follows RFC 2781 sections 2.1 and 2.2. */
module UtfSpec {

  datatype Form = Utf8 | Utf16 | Utf32

  datatype Status = ConversionOK | SourceExhausted | TargetExhausted | SourceIllegal

  /** What stands at the front of a source: a scalar value of len units, or the reason there is none. */
  datatype Item = Scalar(cp: nat, len: nat) | Cut | Illegal | TooLarge

  /** The outcome of a conversion: units consumed and units produced. */
  datatype Run = Run(status: Status, consumed: nat, out: seq<nat>)

  predicate IsSurrogate(cp: nat)
  {
    0xD800 <= cp <= 0xDFFF
  }

  predicate IsScalar(cp: nat)
  {
    cp <= 0x10FFFF && !IsSurrogate(cp)
  }

  function Limit(form: Form): nat
  {
    match form
    case Utf8 => 0x100
    case Utf16 => 0x1_0000
    case Utf32 => 0x1_0000_0000
  }

  ghost predicate AreUnits(form: Form, s: seq<nat>)
  {
    forall u :: u in s ==> u < Limit(form)
  }

  // ---------- UTF-8 as the program reads it ----------

  /** trailingBytesForUTF8. */
  function Trailing(lead: nat): nat
  {
    if lead < 0xC0 then 0
    else if lead < 0xE0 then 1
    else if lead < 0xF0 then 2
    else if lead < 0xF8 then 3
    else if lead < 0xFC then 4
    else 5
  }

  predicate SecondByteLegal(lead: nat, a: nat)
  {
    if lead == 0xE0 then a >= 0xA0
    else if lead == 0xED then a <= 0x9F
    else if lead == 0xF0 then a >= 0x90
    else if lead == 0xF4 then a <= 0x8F
    else a >= 0x80
  }

  /** isLegalUTF8: the checks of its fall-through switch, last byte first. */
  predicate IsLegalUtf8(source: seq<nat>, length: nat)
    requires 1 <= length <= |source|
  {
    && length <= 4
    && (length >= 4 ==> 0x80 <= source[3] <= 0xBF)
    && (length >= 3 ==> 0x80 <= source[2] <= 0xBF)
    && (length >= 2 ==> source[1] <= 0xBF && SecondByteLegal(source[0], source[1]))
    && !(0x80 <= source[0] < 0xC2)
    && source[0] <= 0xF4
  }

  /** The value accumulated from a lead byte and extra continuation bytes, less the offset of that length, in
      32-bit unsigned arithmetic. */
  function Value8(s: seq<nat>, extra: nat): nat
    requires extra < |s| && extra <= 3
  {
    var sum := if extra == 0 then s[0]
               else if extra == 1 then s[0] * 64 + s[1]
               else if extra == 2 then (s[0] * 64 + s[1]) * 64 + s[2]
               else ((s[0] * 64 + s[1]) * 64 + s[2]) * 64 + s[3];
    (sum - OffsetFromUtf8(extra)) % 0x1_0000_0000
  }

  function OffsetFromUtf8(extra: nat): nat
  {
    if extra == 0 then 0 else if extra == 1 then 0x3080 else if extra == 2 then 0xE2080 else 0x3C82080
  }

  function Decode8(s: seq<nat>): Item
    requires s != []
  {
    var extra := Trailing(s[0]);
    if extra >= |s| then Cut
    else if !IsLegalUtf8(s, extra + 1) then Illegal
    else Scalar(Value8(s, extra), extra + 1)
  }

  function Decode16(s: seq<nat>): Item
    requires s != []
  {
    if 0xD800 <= s[0] <= 0xDBFF then
      if |s| == 1 then Cut
      else if 0xDC00 <= s[1] <= 0xDFFF then Scalar((s[0] - 0xD800) * 0x400 + (s[1] - 0xDC00) + 0x10000, 2)
      else Illegal
    else if 0xDC00 <= s[0] <= 0xDFFF then Illegal
    else Scalar(s[0], 1)
  }

  function Decode32(s: seq<nat>): Item
    requires s != []
  {
    if IsSurrogate(s[0]) then Illegal
    else if s[0] > 0x10FFFF then TooLarge
    else Scalar(s[0], 1)
  }

  function Decode(form: Form, s: seq<nat>): (item: Item)
    requires s != []
    ensures item.Scalar? ==> 1 <= item.len <= |s|
    ensures item.TooLarge? ==> form.Utf32?
  {
    match form
    case Utf8 => Decode8(s)
    case Utf16 => Decode16(s)
    case Utf32 => Decode32(s)
  }

  // ---------- The encodings ----------

  function Encode8(cp: nat): (r: seq<nat>)
    ensures 1 <= |r| <= 4
  {
    if cp < 0x80 then [cp]
    else if cp < 0x800 then [0xC0 + cp / 0x40, 0x80 + cp % 0x40]
    else if cp < 0x10000 then [0xE0 + cp / 0x1000, 0x80 + cp / 0x40 % 0x40, 0x80 + cp % 0x40]
    else [0xF0 + cp / 0x40000, 0x80 + cp / 0x1000 % 0x40, 0x80 + cp / 0x40 % 0x40, 0x80 + cp % 0x40]
  }

  function Encode16(cp: nat): (r: seq<nat>)
    ensures 1 <= |r| <= 2
  {
    if cp <= 0xFFFF then [cp]
    else [(cp - 0x10000) / 0x400 + 0xD800, (cp - 0x10000) % 0x400 + 0xDC00]
  }

  function Encode(form: Form, cp: nat): (r: seq<nat>)
    ensures 1 <= |r| <= 4
  {
    match form
    case Utf8 => Encode8(cp)
    case Utf16 => Encode16(cp)
    case Utf32 => [cp]
  }

  function EncodeAll(form: Form, cps: seq<nat>): seq<nat>
  {
    if cps == [] then [] else Encode(form, cps[0]) + EncodeAll(form, cps[1..])
  }

  // ---------- Strict conversion ----------

  /** What a routine writes for a UTF-32 unit above 0x10FFFF: a replacement character, or nothing towards UTF-16. */
  function Replacement(to: Form): seq<nat>
  {
    if to.Utf8? then [0xEF, 0xBF, 0xBD] else []
  }

  function Then(n: nat, out: seq<nat>, flagged: bool, rest: Run): Run
  {
    Run(if flagged && rest.status == ConversionOK then SourceIllegal else rest.status,
        n + rest.consumed, out + rest.out)
  }

  /** Strict conversion into room target units. Only a UTF-32 unit above 0x10FFFF is passed over and remembered;
      everything else that is wrong stops the conversion in front of it. */
  function Transcode(from: Form, to: Form, src: seq<nat>, room: nat): Run
    decreases |src|
  {
    if src == [] then Run(ConversionOK, 0, [])
    else if from.Utf32? && to.Utf16? && room == 0 then Run(TargetExhausted, 0, [])
    else
      match Decode(from, src)
      case Cut => Run(SourceExhausted, 0, [])
      case Illegal => Run(SourceIllegal, 0, [])
      case TooLarge =>
        var out := Replacement(to);
        if |out| > room then Run(TargetExhausted, 0, [])
        else Then(1, out, true, Transcode(from, to, src[1..], room - |out|))
      case Scalar(cp, len) =>
        var out := Encode(to, cp);
        if |out| > room then Run(TargetExhausted, 0, [])
        else Then(len, out, false, Transcode(from, to, src[len..], room - |out|))
  }
}
