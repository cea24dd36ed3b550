/** The user-data header of a short message (section 9.2.3.24 of 3GPP TS 23.040): encoding and decoding of its
    information elements, and when the two agree. */
module UserHeader {
  import opened CTypes
  import opened Hex
  import opened GsmText
  import opened Sequences

  /** An information element; the program's count is the length of ied. */
  datatype Element = Element(iei: schar, ied: seq<schar>)

  /** The octets of the elements, without the length octet in front. */
  function UdhLength(udhs: seq<Element>): nat
  {
    if udhs == [] then 0 else |udhs[0].ied| + 2 + UdhLength(udhs[1..])
  }

  /** The octets of the whole header, with the length octet. */
  function HeaderLength(udhs: seq<Element>): nat
  {
    if udhs == [] then 0 else UdhLength(udhs) + 1
  }

  function ElementChars(e: Element): seq<int>
  {
    [e.iei, |e.ied|] + e.ied
  }

  function HeaderChars(udhs: seq<Element>): seq<int>
  {
    if udhs == [] then [] else ElementChars(udhs[0]) + HeaderChars(udhs[1..])
  }

  function TwoDigitsAll(values: seq<int>): (s: string)
    ensures |s| == 2 * |values|
  {
    if values == [] then "" else TwoDigitsAll(values[..|values| - 1]) + TwoDigits(values[|values| - 1])
  }

  /** Each value printed with "%02X" two characters behind the one before it: all but the last keep two digits. */
  function PrintChars(values: seq<int>): (s: string)
    ensures |s| >= 2 * |values| && s[..2 * |values|] == TwoDigitsAll(values)
  {
    if values == [] then "" else TwoDigitsAll(values[..|values| - 1]) + PrintHex(values[|values| - 1], 2)
  }

  function EncodedHeader(udhs: seq<Element>): string
  {
    if udhs == [] then "" else PrintChars([UdhLength(udhs)] + HeaderChars(udhs))
  }

  /** One more value printed. */
  lemma PrintCharsSnoc(a: seq<int>, v: int)
    ensures PrintAt(PrintChars(a), 2 * |a|, PrintHex(v, 2)) == PrintChars(a + [v])
  {
    hide PrintHex, TwoDigitsAll;
    assert (a + [v])[..|a + [v]| - 1] == a;
  }

  lemma {:induction false} UdhLengthConcat(a: seq<Element>, b: seq<Element>)
    ensures UdhLength(a + b) == UdhLength(a) + UdhLength(b)
    ensures HeaderChars(a + b) == HeaderChars(a) + HeaderChars(b)
  {
    if a == [] {
      assert a + b == b;
    } else {
      hide ElementChars;
      assert (a + b)[0] == a[0] && (a + b)[1..] == a[1..] + b;
      UdhLengthConcat(a[1..], b);
      ConcatAssociates(ElementChars(a[0]), HeaderChars(a[1..]), HeaderChars(b));
    }
  }

  lemma UpTo(udhs: seq<Element>, i: nat)
    requires i < |udhs|
    ensures UdhLength(udhs[..i + 1]) == UdhLength(udhs[..i]) + |udhs[i].ied| + 2
    ensures HeaderChars(udhs[..i + 1]) == HeaderChars(udhs[..i]) + ElementChars(udhs[i])
  {
    assert udhs[..i + 1] == udhs[..i] + [udhs[i]];
    UdhLengthConcat(udhs[..i], [udhs[i]]);
    assert [udhs[i]][1..] == [];
  }

  /** UDHEncoding. */
  method UdhEncoding(udhs: seq<Element>) returns (result: string, udhl: nat)
    ensures result == EncodedHeader(udhs)
    ensures udhl == HeaderLength(udhs)
  {
    hide PrintHex, PrintChars, PrintAt;
    result, udhl := "", 0;
    if |udhs| == 0 {
      return;
    }
    var i := 0;
    while i < |udhs|
      invariant 0 <= i <= |udhs|
      invariant udhl == UdhLength(udhs[..i])
    {
      UpTo(udhs, i);
      udhl := udhl + |udhs[i].ied| + 2;
      i := i + 1;
    }
    assert udhs[..i] == udhs;
    NoChars();
    PrintCharsSnoc([], udhl);
    assert [] + [udhl as int] == [udhl] + HeaderChars(udhs[..0]);
    result := PrintAt(result, 0, PrintHex(udhl, 2));
    var buf: nat := 2;
    i := 0;
    while i < |udhs|
      invariant 0 <= i <= |udhs|
      invariant result == PrintChars([udhl] + HeaderChars(udhs[..i])) && buf == 2 * |[udhl] + HeaderChars(udhs[..i])|
    {
      UpTo(udhs, i);
      result, buf := PrintElement(result, buf, [udhl] + HeaderChars(udhs[..i]), udhs[i]);
      Regroup([udhl], HeaderChars(udhs[..i]), ElementChars(udhs[i]));
      i := i + 1;
    }
    assert udhs[..i] == udhs;
    udhl := udhl + 1;
  }

  lemma NoChars()
    ensures PrintChars([]) == "" && HeaderChars([]) == []
  {
  }

  lemma Regroup(a: seq<int>, b: seq<int>, c: seq<int>)
    ensures (a + b) + c == a + (b + c)
  {
  }

  /** The body of the second loop of UDHEncoding: one element printed from character at on. */
  method PrintElement(buffer: string, at: nat, ghost before: seq<int>, e: Element) returns (result: string, buf: nat)
    requires buffer == PrintChars(before) && at == 2 * |before|
    ensures result == PrintChars(before + ElementChars(e)) && buf == 2 * |before + ElementChars(e)|
  {
    hide PrintHex, PrintChars, PrintAt;
    ghost var printed := before;
    buf := at;
    PrintCharsSnoc(printed, e.iei);
    result, buf, printed := PrintAt(buffer, buf, PrintHex(e.iei, 2)), buf + 2, printed + [e.iei];
    PrintCharsSnoc(printed, |e.ied|);
    result, buf, printed := PrintAt(result, buf, PrintHex(|e.ied|, 2)), buf + 2, printed + [|e.ied| as int];
    var j := 0;
    while j < |e.ied|
      invariant 0 <= j <= |e.ied|
      invariant printed == before + ([e.iei, |e.ied|] + e.ied[..j])
      invariant result == PrintChars(printed) && buf == 2 * |printed|
    {
      assert e.ied[..j + 1] == e.ied[..j] + [e.ied[j]];
      PrintCharsSnoc(printed, e.ied[j]);
      result, buf, printed := PrintAt(result, buf, PrintHex(e.ied[j], 2)), buf + 2, printed + [e.ied[j]];
      j := j + 1;
    }
    assert e.ied[..j] == e.ied;
  }

  /** The elements UDHDecoding reads from character index on, i octets into a header of len octets. */
  function DecodedElements(data: string, index: nat, i: nat, len: nat): seq<Element>
    decreases len - i
  {
    if i >= len then []
    else
      var iedl := ReadHex(data, index + 2, 2);
      [Element(ToChar(ReadHex(data, index, 2)), DecodedChars(data, index + 4, iedl))]
      + DecodedElements(data, index + 4 + 2 * iedl, i + iedl + 2, len)
  }

  function DecodedChars(data: string, index: nat, count: nat): (r: seq<schar>)
    ensures |r| == count
  {
    seq(count, j requires 0 <= j < count => ToChar(ReadHex(data, index + 2 * j, 2)))
  }

  /** UDHDecoding. */
  method UdhDecoding(data: string, start: nat) returns (result: seq<Element>)
    ensures result == DecodedElements(data, start + 2, 0, ReadHex(data, start, 2))
  {
    hide ReadHex, ToChar;
    var len := ReadHex(data, start, 2);
    var index: nat, i: nat := start + 2, 0;
    result := [];
    while i < len
      invariant result + DecodedElements(data, index, i, len) == DecodedElements(data, start + 2, 0, len)
      decreases len - i
    {
      var iei := ToChar(ReadHex(data, index, 2));
      var iedl := ReadHex(data, index + 2, 2);
      ghost var first := index + 4;
      index := index + 4;
      var ied: seq<schar> := [];
      var j := 0;
      while j < iedl
        invariant 0 <= j <= iedl && index == first + 2 * j
        invariant ied == DecodedChars(data, first, iedl)[..j]
      {
        ied := ied + [ToChar(ReadHex(data, index, 2))];
        index := index + 2;
        j := j + 1;
      }
      assert ied == DecodedChars(data, first, iedl);
      assert DecodedElements(data, first - 4, i, len)
          == [Element(iei, ied)] + DecodedElements(data, index, i + iedl + 2, len);
      result := result + [Element(iei, ied)];
      i := i + iedl + 2;
    }
  }

  ghost predicate InRange(values: seq<int>)
  {
    forall i :: 0 <= i < |values| ==> -128 <= values[i] < 256
  }

  /** The octets that the characters kept of each value stand for. */
  ghost function KeptOctets(values: seq<int>): (r: seq<byte>)
    requires InRange(values)
    ensures |r| == |values| && forall i :: 0 <= i < |values| ==> r[i] == KeptOctet(values[i])
  {
    seq(|values|, i requires 0 <= i < |values| => KeptOctet(values[i]))
  }

  /** The last char of the header is negative. */
  predicate EndsBelowZero(udhs: seq<Element>)
  {
    udhs != [] && var ied := udhs[|udhs| - 1].ied; ied != [] && ied[|ied| - 1] < 0
  }

  /** A header whose length fits its octet and whose text has that length. */
  ghost predicate HasItsLength(udhs: seq<Element>)
  {
    UdhLength(udhs) < 256 && !EndsBelowZero(udhs)
  }

  lemma {:induction false} CharsBounded(udhs: seq<Element>)
    requires UdhLength(udhs) < 256
    ensures InRange(HeaderChars(udhs)) && |HeaderChars(udhs)| == UdhLength(udhs)
  {
    if udhs != [] {
      CharsBounded(udhs[1..]);
    }
  }

  lemma {:induction false} LastOfHeader(udhs: seq<Element>)
    requires udhs != []
    ensures var chars := HeaderChars(udhs);
            chars != [] && (chars[|chars| - 1] < 0 <==> EndsBelowZero(udhs))
  {
    if |udhs| > 1 {
      hide ElementChars;
      LastOfHeader(udhs[1..]);
      assert udhs[1..][|udhs| - 2] == udhs[|udhs| - 1];
    } else {
      hide HeaderChars;
      HeaderOfOne(udhs);
      LastOfElement(udhs[0]);
    }
  }

  lemma HeaderOfOne(udhs: seq<Element>)
    requires |udhs| == 1
    ensures HeaderChars(udhs) == ElementChars(udhs[0])
  {
    hide ElementChars;
    assert udhs[1..] == [];
  }

  lemma LastOfElement(e: Element)
    ensures var chars := ElementChars(e);
            chars != [] && chars[|chars| - 1] == if e.ied == [] then 0 else e.ied[|e.ied| - 1]
  {
  }

  lemma {:induction false} KeptDigitsAll(values: seq<int>)
    requires InRange(values)
    ensures TwoDigitsAll(values) == PrintOctets(KeptOctets(values))
  {
    hide TwoDigits;
    if values != [] {
      var front, v := values[..|values| - 1], values[|values| - 1];
      KeptDigitsAll(front);
      KeptDigits(v);
      assert KeptOctets(values) == KeptOctets(front) + [KeptOctet(v)];
      PrintOctetsSnoc(KeptOctets(front), KeptOctet(v));
    }
  }

  /** The text is that of the kept octets, and six digits more if the last value is negative. */
  lemma PrintedAsKept(values: seq<int>) returns (more: string)
    requires InRange(values) && values != []
    ensures PrintChars(values) == PrintOctets(KeptOctets(values)) + more
    ensures |more| == if values[|values| - 1] < 0 then 6 else 0
  {
    hide PrintHex, TwoDigitsAll;
    KeptDigitsAll(values);
    KeptDigits(values[|values| - 1]);
    more := PrintChars(values)[2 * |values|..];
  }

  lemma WithLength(n: nat, values: seq<int>)
    requires n < 256 && InRange(values)
    ensures InRange([n] + values) && KeptOctets([n] + values) == [n] + KeptOctets(values)
    ensures values != [] ==> ([n] + values)[|values|] == values[|values| - 1]
  {
    assert forall i :: 0 <= i < |values| ==> ([n] + values)[i + 1] == values[i];
  }

  /** The text of a header: its kept octets behind their number, and nothing more unless the last char is negative. */
  lemma HeaderText(udhs: seq<Element>) returns (more: string)
    requires udhs != [] && UdhLength(udhs) < 256
    ensures InRange(HeaderChars(udhs)) && |HeaderChars(udhs)| == UdhLength(udhs)
    ensures EncodedHeader(udhs) == PrintOctets([UdhLength(udhs)] + KeptOctets(HeaderChars(udhs))) + more
    ensures |more| == if EndsBelowZero(udhs) then 6 else 0
  {
    hide PrintChars, PrintOctets, EndsBelowZero, HeaderChars;
    CharsBounded(udhs);
    LastOfHeader(udhs);
    WithLength(UdhLength(udhs), HeaderChars(udhs));
    more := PrintedAsKept([UdhLength(udhs)] + HeaderChars(udhs));
  }

  /** The header text is as long as the header length announces exactly when its last char is not negative: of every
      other char two digits are kept, of the last one all that are printed. */
  lemma HeaderLengthIsExact(udhs: seq<Element>)
    requires UdhLength(udhs) < 256
    ensures |EncodedHeader(udhs)| == 2 * HeaderLength(udhs) <==> !EndsBelowZero(udhs)
  {
    hide EndsBelowZero, PrintChars;
    if udhs != [] {
      var more := HeaderText(udhs);
      PrintOctetsLength([UdhLength(udhs)] + KeptOctets(HeaderChars(udhs)));
    } else {
      NothingBelowZero();
    }
  }

  lemma NothingBelowZero()
    ensures !EndsBelowZero([])
  {
  }

  /** What is read of a char: a negative one has become -1. */
  function CharRead(v: schar): schar
  {
    if v < 0 then -1 else v
  }

  function CharsRead(chars: seq<schar>): (r: seq<schar>)
    ensures |r| == |chars|
  {
    seq(|chars|, j requires 0 <= j < |chars| => CharRead(chars[j]))
  }

  function ElementRead(e: Element): Element
  {
    Element(CharRead(e.iei), CharsRead(e.ied))
  }

  function ElementsRead(udhs: seq<Element>): (r: seq<Element>)
    ensures |r| == |udhs|
  {
    seq(|udhs|, i requires 0 <= i < |udhs| => ElementRead(udhs[i]))
  }

  predicate IsReadable(e: Element)
  {
    e.iei >= -1 && forall j :: 0 <= j < |e.ied| ==> e.ied[j] >= -1
  }

  /** Elements are read as they are exactly when no char of theirs is below -1. */
  lemma ReadAsTheyAre(udhs: seq<Element>)
    ensures ElementsRead(udhs) == udhs <==> forall i :: 0 <= i < |udhs| ==> IsReadable(udhs[i])
  {
    forall i | 0 <= i < |udhs|
      ensures ElementRead(udhs[i]) == udhs[i] <==> IsReadable(udhs[i])
    {
      ReadAsItIs(udhs[i]);
    }
    if ElementsRead(udhs) == udhs {
      assert forall i :: 0 <= i < |udhs| ==> ElementRead(udhs[i]) == ElementsRead(udhs)[i];
    }
  }

  lemma ReadAsItIs(e: Element)
    ensures ElementRead(e) == e <==> IsReadable(e)
  {
    if ElementRead(e) == e {
      assert forall j :: 0 <= j < |e.ied| ==> CharRead(e.ied[j]) == CharsRead(e.ied)[j];
    }
  }

  lemma KeptOctetsConcat(a: seq<int>, b: seq<int>)
    requires InRange(a + b)
    ensures InRange(a) && InRange(b) && KeptOctets(a + b) == KeptOctets(a) + KeptOctets(b)
  {
    assert forall i :: 0 <= i < |a| ==> (a + b)[i] == a[i];
    assert forall i :: 0 <= i < |b| ==> (a + b)[i + |a|] == b[i];
  }

  /** The elements printed behind the octets a are read from there. */
  lemma {:induction false} ElementsReadBack(pre: string, a: seq<byte>, udhs: seq<Element>, post: string, i: nat,
                                            len: nat)
    requires InRange(HeaderChars(udhs)) && len == i + UdhLength(udhs)
    ensures DecodedElements(pre + PrintOctets(a + KeptOctets(HeaderChars(udhs))) + post, |pre| + 2 * |a|, i, len)
         == ElementsRead(udhs)
    decreases |udhs|
  {
    hide ReadHex, PrintOctets, ElementRead;
    if udhs != [] {
      var e, rest := udhs[0], udhs[1..];
      KeptOctetsConcat(ElementChars(e), HeaderChars(rest));
      var own := KeptOctets(ElementChars(e));
      var tail := KeptOctets(HeaderChars(rest));
      assert a + KeptOctets(HeaderChars(udhs)) == (a + own) + tail;
      ElementReadBack(pre, a, e, tail, post);
      ElementsReadBack(pre, a + own, rest, post, i + |e.ied| + 2, len);
      assert |pre| + 2 * |a + own| == |pre| + 2 * |a| + 4 + 2 * |e.ied|;
      assert ElementsRead(udhs) == [ElementRead(e)] + ElementsRead(rest);
    }
  }

  lemma ElementReadBack(pre: string, a: seq<byte>, e: Element, b: seq<byte>, post: string)
    requires InRange(ElementChars(e))
    ensures var data := pre + PrintOctets(a + KeptOctets(ElementChars(e)) + b) + post;
            var index := |pre| + 2 * |a|;
            && ReadHex(data, index + 2, 2) == |e.ied|
            && Element(ToChar(ReadHex(data, index, 2)), DecodedChars(data, index + 4, |e.ied|)) == ElementRead(e)
  {
    hide ReadHex, PrintOctets, ToChar;
    var own := KeptOctets(ElementChars(e));
    var all := a + own + b;
    ReadOctet(pre, all, post, |a|);
    ReadOctet(pre, all, post, |a| + 1);
    assert all[|a|] == own[0] && all[|a| + 1] == own[1];
    KeptIsRead(e.iei);
    assert ElementChars(e)[1] == |e.ied|;
    forall j | 0 <= j < |e.ied|
      ensures ToChar(ReadHex(pre + PrintOctets(all) + post, |pre| + 2 * |a| + 4 + 2 * j, 2)) == CharRead(e.ied[j])
    {
      assert all[|a| + 2 + j] == own[2 + j] && ElementChars(e)[2 + j] == e.ied[j];
      ReadOctet(pre, all, post, |a| + 2 + j);
      KeptIsRead(e.ied[j]);
    }
  }

  lemma KeptIsRead(v: schar)
    ensures ToChar(KeptOctet(v)) == CharRead(v)
  {
  }

  /** Every header is decoded to its elements, in order, with -1 for every negative char. */
  lemma HeaderDecoded(pre: string, udhs: seq<Element>, post: string)
    requires udhs != [] && UdhLength(udhs) < 256
    ensures var data := pre + EncodedHeader(udhs) + post;
            && ReadHex(data, |pre|, 2) == UdhLength(udhs)
            && DecodedElements(data, |pre| + 2, 0, UdhLength(udhs)) == ElementsRead(udhs)
  {
    hide ReadHex, DecodedElements, PrintOctets, PrintChars, EncodedHeader, ElementsRead;
    var more := HeaderText(udhs);
    var all := [UdhLength(udhs)] + KeptOctets(HeaderChars(udhs));
    assert pre + (PrintOctets(all) + more) + post == pre + PrintOctets(all) + (more + post);
    ReadOctet(pre, all, more + post, 0);
    ElementsReadBack(pre, [UdhLength(udhs)], udhs, more + post, 0, UdhLength(udhs));
  }

  /** A header is decoded to itself exactly when none of its chars is below -1. */
  lemma HeaderRoundTrip(pre: string, udhs: seq<Element>, post: string)
    requires udhs != [] && UdhLength(udhs) < 256
    ensures var data := pre + EncodedHeader(udhs) + post;
            DecodedElements(data, |pre| + 2, 0, ReadHex(data, |pre|, 2)) == udhs
            <==> forall i :: 0 <= i < |udhs| ==> IsReadable(udhs[i])
  {
    hide ReadHex, DecodedElements, EncodedHeader, ElementsRead, IsReadable;
    HeaderDecoded(pre, udhs, post);
    ReadAsTheyAre(udhs);
  }
}
