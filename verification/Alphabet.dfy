/** The GSM 7-bit default alphabet and its extension table (sections 6.2.1 and 6.2.1.1 of 3GPP TS 23.038), as
    the three tables of the program, with the linear search that reads them. */
module Alphabet {

  datatype MapNode = MapNode(key: nat, value: nat)

  /** Unicode to GSM; a value above 0xFF is the escape 0x1B followed by an extension code. */
  const UCS2_TO_BIT7: seq<MapNode> :=
    [MapNode(0x000C, 0x1B0A), MapNode(0x0024, 0x0002), MapNode(0x0040, 0x0000), MapNode(0x005B, 0x1B3C)] +
    [MapNode(0x005C, 0x1B2F), MapNode(0x005D, 0x1B3E), MapNode(0x005E, 0x1B14), MapNode(0x005F, 0x0011)] +
    [MapNode(0x007B, 0x1B28), MapNode(0x007C, 0x1B40), MapNode(0x007D, 0x1B29), MapNode(0x007E, 0x1B3D)] +
    [MapNode(0x00A0, 0x001B), MapNode(0x00A1, 0x0040), MapNode(0x00A3, 0x0001), MapNode(0x00A4, 0x0024)] +
    [MapNode(0x00A5, 0x0003), MapNode(0x00A7, 0x005F), MapNode(0x00BF, 0x0060), MapNode(0x00C4, 0x005B)] +
    [MapNode(0x00C5, 0x000E), MapNode(0x00C6, 0x001C), MapNode(0x00C9, 0x001F), MapNode(0x00D1, 0x005D)] +
    [MapNode(0x00D6, 0x005C), MapNode(0x00D8, 0x000B), MapNode(0x00DC, 0x005E), MapNode(0x00DF, 0x001E)] +
    [MapNode(0x00E0, 0x007F), MapNode(0x00E4, 0x007B), MapNode(0x00E5, 0x000F), MapNode(0x00E6, 0x001D)] +
    [MapNode(0x00E7, 0x0009), MapNode(0x00E8, 0x0004), MapNode(0x00E9, 0x0005), MapNode(0x00EC, 0x0007)] +
    [MapNode(0x00F1, 0x007D), MapNode(0x00F2, 0x0008), MapNode(0x00F6, 0x007C), MapNode(0x00F8, 0x000C)] +
    [MapNode(0x00F9, 0x0006), MapNode(0x00FC, 0x007E), MapNode(0x0393, 0x0013), MapNode(0x0394, 0x0010)] +
    [MapNode(0x0398, 0x0019), MapNode(0x039B, 0x0014), MapNode(0x039E, 0x001A), MapNode(0x03A0, 0x0016)] +
    [MapNode(0x03A3, 0x0018), MapNode(0x03A6, 0x0012), MapNode(0x03A8, 0x0017), MapNode(0x03A9, 0x0015)] +
    [MapNode(0x20AC, 0x1B65)]

  /** GSM to Unicode. */
  const BIT7_TO_UCS2: seq<MapNode> :=
    [MapNode(0x0000, 0x0040), MapNode(0x0001, 0x00A3), MapNode(0x0002, 0x0024), MapNode(0x0003, 0x00A5)] +
    [MapNode(0x0004, 0x00E8), MapNode(0x0005, 0x00E9), MapNode(0x0006, 0x00F9), MapNode(0x0007, 0x00EC)] +
    [MapNode(0x0008, 0x00F2), MapNode(0x0009, 0x00E7), MapNode(0x000B, 0x00D8), MapNode(0x000C, 0x00F8)] +
    [MapNode(0x000E, 0x00C5), MapNode(0x000F, 0x00E5), MapNode(0x0010, 0x0394), MapNode(0x0011, 0x005F)] +
    [MapNode(0x0012, 0x03A6), MapNode(0x0013, 0x0393), MapNode(0x0014, 0x039B), MapNode(0x0015, 0x03A9)] +
    [MapNode(0x0016, 0x03A0), MapNode(0x0017, 0x03A8), MapNode(0x0018, 0x03A3), MapNode(0x0019, 0x0398)] +
    [MapNode(0x001A, 0x039E), MapNode(0x001B, 0x00A0), MapNode(0x001C, 0x00C6), MapNode(0x001D, 0x00E6)] +
    [MapNode(0x001E, 0x00DF), MapNode(0x001F, 0x00C9), MapNode(0x0024, 0x00A4), MapNode(0x0040, 0x00A1)] +
    [MapNode(0x005B, 0x00C4), MapNode(0x005C, 0x00D6), MapNode(0x005D, 0x00D1), MapNode(0x005E, 0x00DC)] +
    [MapNode(0x005F, 0x00A7), MapNode(0x0060, 0x00BF), MapNode(0x007B, 0x00E4), MapNode(0x007C, 0x00F6)] +
    [MapNode(0x007D, 0x00F1), MapNode(0x007E, 0x00FC), MapNode(0x007F, 0x00E0)]

  /** GSM extension codes, those that follow an escape, to Unicode. */
  const BIT7E_TO_UCS2: seq<MapNode> :=
    [MapNode(0x000A, 0x000C), MapNode(0x0014, 0x005E), MapNode(0x0028, 0x007B), MapNode(0x0029, 0x007D)] +
    [MapNode(0x002F, 0x005C), MapNode(0x003C, 0x005B), MapNode(0x003D, 0x007E), MapNode(0x003E, 0x005D)] +
    [MapNode(0x0040, 0x007C), MapNode(0x0065, 0x20AC)]

  /** The value of the first entry with the key, or -1. */
  function MapValue(table: seq<MapNode>, key: nat, i: nat := 0): int
    decreases |table| - i
  {
    if i >= |table| then -1
    else if table[i].key == key then table[i].value
    else MapValue(table, key, i + 1)
  }

  /** map_get_value. */
  method MapGetValue(table: seq<MapNode>, key: nat) returns (value: int)
    ensures value == MapValue(table, key)
  {
    var i := 0;
    while i < |table|
      invariant 0 <= i <= |table|
      invariant MapValue(table, key) == MapValue(table, key, i)
    {
      if table[i].key == key {
        return table[i].value;
      }
      i := i + 1;
    }
    value := -1;
  }

  lemma {:induction false} FirstMatch(table: seq<MapNode>, i: nat, start: nat := 0)
    requires start <= i < |table|
    requires forall j :: start <= j < i ==> table[j].key != table[i].key
    ensures MapValue(table, table[i].key, start) == table[i].value
    decreases i - start
  {
    if start < i {
      FirstMatch(table, i, start + 1);
    }
  }

  lemma {:induction false} NoMatch(table: seq<MapNode>, key: nat, start: nat := 0)
    requires forall j :: start <= j < |table| ==> table[j].key != key
    ensures MapValue(table, key, start) == -1
    decreases |table| - start
  {
    if start < |table| {
      NoMatch(table, key, start + 1);
    }
  }

  function GsmCode(ucs2: nat): int
  {
    MapValue(UCS2_TO_BIT7, ucs2)
  }

  function UcsCode(septet: nat): int
  {
    MapValue(BIT7_TO_UCS2, septet)
  }

  function ExtensionCode(septet: nat): int
  {
    MapValue(BIT7E_TO_UCS2, septet)
  }

  /** isBIT7Same: the characters with the same code in both alphabets. */
  predicate IsBit7Same(ucs2: nat)
  {
    0x61 <= ucs2 <= 0x7A || 0x41 <= ucs2 <= 0x5A || 0x25 <= ucs2 <= 0x3F || 0x20 <= ucs2 <= 0x23
    || ucs2 == 0x0A || ucs2 == 0x0D
  }

  /** What the encoder's table says of the keys below 0x80 that take one septet, and the way back. */
  lemma SingleCodes()
    ensures GsmCode(0x24) == 0x02 && UcsCode(0x02) == 0x24
    ensures GsmCode(0x40) == 0x00 && UcsCode(0x00) == 0x40
    ensures GsmCode(0x5F) == 0x11 && UcsCode(0x11) == 0x5F
  {
    FirstMatch(UCS2_TO_BIT7, 1);
    FirstMatch(UCS2_TO_BIT7, 2);
    FirstMatch(UCS2_TO_BIT7, 7);
    FirstMatch(BIT7_TO_UCS2, 0);
    FirstMatch(BIT7_TO_UCS2, 2);
    FirstMatch(BIT7_TO_UCS2, 15);
  }

  lemma LastCode()
    ensures UcsCode(0x7F) == 0xE0
  {
    FirstMatch(BIT7_TO_UCS2, |BIT7_TO_UCS2| - 1);
  }

  lemma EscapeCode()
    ensures UcsCode(0x1B) == 0xA0
  {
    FirstMatch(BIT7_TO_UCS2, 25);
  }

  /** The keys below 0x80 that take an escape and an extension code, and the way back. */
  lemma EscapedCodes()
    ensures GsmCode(0x0C) == 0x1B0A && ExtensionCode(0x0A) == 0x0C
    ensures GsmCode(0x5B) == 0x1B3C && ExtensionCode(0x3C) == 0x5B
    ensures GsmCode(0x5C) == 0x1B2F && ExtensionCode(0x2F) == 0x5C
    ensures GsmCode(0x5D) == 0x1B3E && ExtensionCode(0x3E) == 0x5D
    ensures GsmCode(0x5E) == 0x1B14 && ExtensionCode(0x14) == 0x5E
    ensures GsmCode(0x7B) == 0x1B28 && ExtensionCode(0x28) == 0x7B
    ensures GsmCode(0x7C) == 0x1B40 && ExtensionCode(0x40) == 0x7C
    ensures GsmCode(0x7D) == 0x1B29 && ExtensionCode(0x29) == 0x7D
    ensures GsmCode(0x7E) == 0x1B3D && ExtensionCode(0x3D) == 0x7E
  {
    hide *;
    EscapedOne();
    EscapedTwo();
    EscapedThree();
    EscapedBack();
  }

  lemma EscapedOne()
    ensures GsmCode(0x0C) == 0x1B0A
    ensures GsmCode(0x5B) == 0x1B3C
    ensures GsmCode(0x5C) == 0x1B2F
  {
    FirstMatch(UCS2_TO_BIT7, 0);
    FirstMatch(UCS2_TO_BIT7, 3);
    FirstMatch(UCS2_TO_BIT7, 4);
  }

  lemma EscapedTwo()
    ensures GsmCode(0x5D) == 0x1B3E
    ensures GsmCode(0x5E) == 0x1B14
    ensures GsmCode(0x7B) == 0x1B28
  {
    FirstMatch(UCS2_TO_BIT7, 5);
    FirstMatch(UCS2_TO_BIT7, 6);
    FirstMatch(UCS2_TO_BIT7, 8);
  }

  lemma EscapedThree()
    ensures GsmCode(0x7C) == 0x1B40
    ensures GsmCode(0x7D) == 0x1B29
    ensures GsmCode(0x7E) == 0x1B3D
  {
    FirstMatch(UCS2_TO_BIT7, 9);
    FirstMatch(UCS2_TO_BIT7, 10);
    FirstMatch(UCS2_TO_BIT7, 11);
  }

  lemma EscapedBack()
    ensures ExtensionCode(0x0A) == 0x0C && ExtensionCode(0x14) == 0x5E
    ensures ExtensionCode(0x28) == 0x7B && ExtensionCode(0x29) == 0x7D
    ensures ExtensionCode(0x2F) == 0x5C && ExtensionCode(0x3C) == 0x5B
    ensures ExtensionCode(0x3D) == 0x7E && ExtensionCode(0x3E) == 0x5D
    ensures ExtensionCode(0x40) == 0x7C
  {
    FirstMatch(BIT7E_TO_UCS2, 0);
    FirstMatch(BIT7E_TO_UCS2, 1);
    FirstMatch(BIT7E_TO_UCS2, 2);
    FirstMatch(BIT7E_TO_UCS2, 3);
    FirstMatch(BIT7E_TO_UCS2, 4);
    FirstMatch(BIT7E_TO_UCS2, 5);
    FirstMatch(BIT7E_TO_UCS2, 6);
    FirstMatch(BIT7E_TO_UCS2, 7);
    FirstMatch(BIT7E_TO_UCS2, 8);
  }

  /** The keys below 0x80 are those of the two lemmas above; a char of 0x80 or more, sign-extended, is no key. */
  lemma OtherCodes(code: nat)
    requires code < 0x80 || 0xFF80 <= code
    requires code !in {0x0C, 0x24, 0x40, 0x5B, 0x5C, 0x5D, 0x5E, 0x5F, 0x7B, 0x7C, 0x7D, 0x7E}
    ensures GsmCode(code) == -1
  {
    NoMatch(UCS2_TO_BIT7, code);
  }
}
