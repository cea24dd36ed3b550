/** The tables of the alphabet undo each other: what the encoder finds for a unit the decoder turns back into it, and
    the other way round. */
module AlphabetLaws {
  import opened Alphabet

  // ---------- Search in a table sorted by its keys ----------

  ghost predicate Sorted(table: seq<MapNode>)
  {
    forall i :: 0 <= i < |table| - 1 ==> table[i].key < table[i + 1].key
  }

  lemma {:induction false} KeysGrow(table: seq<MapNode>, i: nat, j: nat)
    requires Sorted(table) && i < j < |table|
    ensures table[i].key < table[j].key
  {
    if i + 1 < j {
      KeysGrow(table, i, j - 1);
    }
    assert table[j - 1].key < table[j - 1 + 1].key;
  }

  /** Every entry of a sorted table is found by its key. */
  lemma EntryIsFound(table: seq<MapNode>, i: nat)
    requires Sorted(table) && i < |table|
    ensures MapValue(table, table[i].key) == table[i].value
  {
    forall j | 0 <= j < i
      ensures table[j].key != table[i].key
    {
      KeysGrow(table, j, i);
    }
    FirstMatch(table, i);
  }

  /** What is found is the value of an entry with the key. */
  lemma {:induction false} FoundIsEntry(table: seq<MapNode>, key: nat, start: nat := 0) returns (i: nat)
    requires MapValue(table, key, start) >= 0
    ensures i < |table| && table[i] == MapNode(key, MapValue(table, key, start))
    decreases |table| - start
  {
    if table[start].key == key {
      i := start;
    } else {
      i := FoundIsEntry(table, key, start + 1);
    }
  }

  lemma EncoderKeysFrom0(i: nat)
    requires 0 <= i < 20
    ensures |UCS2_TO_BIT7| == 53 && UCS2_TO_BIT7[i].key < UCS2_TO_BIT7[i + 1].key
  {
  }

  lemma EncoderKeysFrom20(i: nat)
    requires 20 <= i < 40
    ensures |UCS2_TO_BIT7| == 53 && UCS2_TO_BIT7[i].key < UCS2_TO_BIT7[i + 1].key
  {
  }

  lemma EncoderKeysFrom40(i: nat)
    requires 40 <= i < 52
    ensures |UCS2_TO_BIT7| == 53 && UCS2_TO_BIT7[i].key < UCS2_TO_BIT7[i + 1].key
  {
  }

  lemma EncoderSorted()
    ensures |UCS2_TO_BIT7| == 53 && Sorted(UCS2_TO_BIT7)
  {
    hide UCS2_TO_BIT7;
    EncoderKeysFrom0(0);
    forall i | 0 <= i < 52
      ensures UCS2_TO_BIT7[i].key < UCS2_TO_BIT7[i + 1].key
    {
      if i < 20 {
        EncoderKeysFrom0(i);
      } else if i < 40 {
        EncoderKeysFrom20(i);
      } else {
        EncoderKeysFrom40(i);
      }
    }
  }

  lemma DecoderKeysFrom0(i: nat)
    requires 0 <= i < 14
    ensures |BIT7_TO_UCS2| == 43 && BIT7_TO_UCS2[i].key < BIT7_TO_UCS2[i + 1].key
  {
  }

  lemma DecoderKeysFrom14(i: nat)
    requires 14 <= i < 28
    ensures |BIT7_TO_UCS2| == 43 && BIT7_TO_UCS2[i].key < BIT7_TO_UCS2[i + 1].key
  {
  }

  lemma DecoderKeysFrom28(i: nat)
    requires 28 <= i < 42
    ensures |BIT7_TO_UCS2| == 43 && BIT7_TO_UCS2[i].key < BIT7_TO_UCS2[i + 1].key
  {
  }

  lemma DecoderSorted()
    ensures |BIT7_TO_UCS2| == 43 && Sorted(BIT7_TO_UCS2)
  {
    hide BIT7_TO_UCS2;
    DecoderKeysFrom0(0);
    forall i | 0 <= i < 42
      ensures BIT7_TO_UCS2[i].key < BIT7_TO_UCS2[i + 1].key
    {
      if i < 14 {
        DecoderKeysFrom0(i);
      } else if i < 28 {
        DecoderKeysFrom14(i);
      } else {
        DecoderKeysFrom28(i);
      }
    }
  }

  lemma ExtensionSorted()
    ensures |BIT7E_TO_UCS2| == 10 && Sorted(BIT7E_TO_UCS2)
  {
  }

  // ---------- Where an entry has its counterpart ----------

  /** Where a septet stands in the table of the decoder. */
  function Place(septet: nat): nat
  {
    if septet < 0x0A then septet
    else if septet < 0x0D then septet - 1
    else if septet < 0x20 then septet - 2
    else if septet == 0x24 then 30
    else if septet == 0x40 then 31
    else if 0x5B <= septet < 0x61 then septet - 59
    else if septet >= 0x7B then septet - 85
    else 0
  }

  function ExtensionPlace(code: nat): nat
  {
    if code < 0x14 then 0 else if code < 0x28 then 1 else if code < 0x2F then code - 0x26
    else if code < 0x3C then 4 else if code < 0x40 then code - 0x37 else if code < 0x65 then 8 else 9
  }

  /** Where the units of the decoder's table stand in that of the encoder, and those of the extension table. */
  const PLACES: seq<nat> :=
    [2, 14, 1, 16, 33, 34, 40, 35] +
    [37, 32, 25, 39, 20, 30, 43, 7] +
    [49, 42, 45, 51, 47, 50, 48, 44] +
    [46, 12, 21, 31, 27, 22, 15, 13] +
    [19, 24, 23, 26, 17, 18, 29, 38] +
    [36, 41, 28]

  const EXTENSION_PLACES: seq<nat> := [0, 6, 8, 10, 4, 3, 11, 5, 9, 52]

  ghost predicate SingleStands(i: nat)
    requires i < |UCS2_TO_BIT7|
  {
    var MapNode(unit, code) := UCS2_TO_BIT7[i];
    code <= 0xFF ==> Place(code) < |BIT7_TO_UCS2| && BIT7_TO_UCS2[Place(code)] == MapNode(code, unit)
  }

  lemma SinglesFrom0(i: nat)
    requires 0 <= i < 24
    ensures i < |UCS2_TO_BIT7| && SingleStands(i)
  {
  }

  lemma SinglesFrom24(i: nat)
    requires 24 <= i < 40
    ensures i < |UCS2_TO_BIT7| && SingleStands(i)
  {
  }

  lemma SinglesFrom40(i: nat)
    requires 40 <= i < 53
    ensures i < |UCS2_TO_BIT7| && SingleStands(i)
  {
  }

  ghost predicate EscapedStands(i: nat)
    requires i < |UCS2_TO_BIT7|
  {
    var MapNode(unit, code) := UCS2_TO_BIT7[i];
    code > 0xFF ==>
      && code / 0x100 == 0x1B && ExtensionPlace(code % 0x100) < |BIT7E_TO_UCS2|
      && BIT7E_TO_UCS2[ExtensionPlace(code % 0x100)] == MapNode(code % 0x100, unit)
  }

  lemma EscapedFrom0(i: nat)
    requires i < 8
    ensures i < |UCS2_TO_BIT7| && EscapedStands(i)
  {
  }

  lemma EscapedFrom8(i: nat)
    requires 8 <= i < 53
    ensures i < |UCS2_TO_BIT7| && EscapedStands(i)
  {
  }

  ghost predicate DecoderStands(j: nat)
    requires j < |BIT7_TO_UCS2|
  {
    && j < |PLACES| && PLACES[j] < |UCS2_TO_BIT7|
    && UCS2_TO_BIT7[PLACES[j]] == MapNode(BIT7_TO_UCS2[j].value, BIT7_TO_UCS2[j].key)
  }

  lemma DecoderFrom0(j: nat)
    requires 0 <= j < 16
    ensures j < |BIT7_TO_UCS2| && DecoderStands(j)
  {
  }

  lemma DecoderFrom16(j: nat)
    requires 16 <= j < 32
    ensures j < |BIT7_TO_UCS2| && DecoderStands(j)
  {
  }

  lemma DecoderFrom32(j: nat)
    requires 32 <= j < 43
    ensures j < |BIT7_TO_UCS2| && DecoderStands(j)
  {
  }

  lemma ExtensionStands(j: nat)
    requires j < |BIT7E_TO_UCS2|
    ensures && j < |EXTENSION_PLACES| && EXTENSION_PLACES[j] < |UCS2_TO_BIT7|
            && UCS2_TO_BIT7[EXTENSION_PLACES[j]] == MapNode(BIT7E_TO_UCS2[j].value, 0x1B00 + BIT7E_TO_UCS2[j].key)
  {
  }

  // ---------- The laws ----------

  /** A unit with a code of one septet is what the decoder reads this septet as; any other code is the escape and an
      extension code that the decoder reads as the unit. */
  lemma UnitIsReadBack(unit: nat)
    ensures 0 <= GsmCode(unit) <= 0xFF ==> UcsCode(GsmCode(unit)) == unit
    ensures GsmCode(unit) > 0xFF ==>
              GsmCode(unit) / 0x100 == 0x1B && ExtensionCode(GsmCode(unit) % 0x100) == unit
  {
    hide UCS2_TO_BIT7, BIT7_TO_UCS2, BIT7E_TO_UCS2, Sorted, Place, ExtensionPlace, MapValue;
    EncoderSorted();
    if GsmCode(unit) >= 0 {
      var i := FoundIsEntry(UCS2_TO_BIT7, unit);
      if GsmCode(unit) <= 0xFF {
        SinglesStand(i);
        DecoderSorted();
        EntryIsFound(BIT7_TO_UCS2, Place(GsmCode(unit)));
      } else {
        if i < 8 {
          EscapedFrom0(i);
        } else {
          EscapedFrom8(i);
        }
        ExtensionSorted();
        EntryIsFound(BIT7E_TO_UCS2, ExtensionPlace(GsmCode(unit) % 0x100));
      }
    }
  }

  lemma SinglesStand(i: nat)
    requires i < 53
    ensures i < |UCS2_TO_BIT7| && SingleStands(i)
  {
    hide UCS2_TO_BIT7, SingleStands;
    if i < 24 {
      SinglesFrom0(i);
    } else if i < 40 {
      SinglesFrom24(i);
    } else {
      SinglesFrom40(i);
    }
  }

  lemma AllDecoderStands(j: nat)
    requires j < 43
    ensures j < |BIT7_TO_UCS2| && DecoderStands(j)
  {
    hide BIT7_TO_UCS2, DecoderStands;
    if j < 16 {
      DecoderFrom0(j);
    } else if j < 32 {
      DecoderFrom16(j);
    } else {
      DecoderFrom32(j);
    }
  }

  /** A unit that the decoder reads a septet as has this septet for its code, and one that it reads an escaped code as
      has the escape and this code. */
  lemma SeptetIsWrittenBack(septet: nat)
    ensures UcsCode(septet) >= 0 ==> GsmCode(UcsCode(septet)) == septet
    ensures ExtensionCode(septet) >= 0 ==> GsmCode(ExtensionCode(septet)) == 0x1B00 + septet
  {
    hide UCS2_TO_BIT7, BIT7_TO_UCS2, BIT7E_TO_UCS2, PLACES, EXTENSION_PLACES, Sorted, MapValue;
    EncoderSorted();
    if UcsCode(septet) >= 0 {
      var j := FoundIsEntry(BIT7_TO_UCS2, septet);
      DecoderSorted();
      AllDecoderStands(j);
      EntryIsFound(UCS2_TO_BIT7, PLACES[j]);
    }
    if ExtensionCode(septet) >= 0 {
      var j := FoundIsEntry(BIT7E_TO_UCS2, septet);
      ExtensionSorted();
      ExtensionStands(j);
      EntryIsFound(UCS2_TO_BIT7, EXTENSION_PLACES[j]);
    }
  }

  /** Every septet is a character: its own, or one by the table. */
  lemma EverySeptetIsRead(septet: nat)
    requires septet < 0x80
    ensures UcsCode(septet) >= 0 <==> !IsBit7Same(septet)
  {
    if IsBit7Same(septet) {
      NoMatch(BIT7_TO_UCS2, septet);
    } else {
      if septet < 0x20 {
        ControlStands(septet);
      } else {
        KeyStands(septet);
      }
      DecoderSorted();
      EntryIsFound(BIT7_TO_UCS2, Place(septet));
    }
  }

  lemma ControlStands(septet: nat)
    requires septet < 0x20 && !IsBit7Same(septet)
    ensures Place(septet) < |BIT7_TO_UCS2| && BIT7_TO_UCS2[Place(septet)].key == septet
  {
  }

  lemma KeyStands(septet: nat)
    requires 0x20 <= septet < 0x80 && !IsBit7Same(septet)
    ensures Place(septet) < |BIT7_TO_UCS2| && BIT7_TO_UCS2[Place(septet)].key == septet
  {
  }
}
