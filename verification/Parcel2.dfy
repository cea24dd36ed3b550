/** A marshalling buffer that grows as it is written, pads every item to four bytes, and is read back with a
    cursor. */
module Parcel2 {
  import opened CTypes
  import opened LittleEndian
  import opened Sequences
  import opened Wrappers

  const MAX_SIZE: nat := 0x7FFF_FFFF

  datatype Status = NoError | NoMemory | BadValue | NotEnoughData

  function Padding(n: nat): (r: nat)
    ensures (n + r) % 4 == 0 && r < 4
  {
    (4 - n % 4) % 4
  }

  function PadSize(n: nat): nat
  {
    n + Padding(n)
  }

  function PaddedBytes(bytes: seq<byte>): (r: seq<byte>)
    ensures |r| == PadSize(|bytes|) && |r| % 4 == 0
  {
    bytes + ZeroBytes(Padding(|bytes|))
  }

  // ---------- Items and their bytes ----------

  datatype Item =
    | Int32(i: int)
    | Uint32(u: nat)
    | Int64(i: int)
    | Uint64(u: nat)
    | CString(chars: seq<byte>)
    | String16(units: seq<nat>)

  ghost predicate IsItem(item: Item)
  {
    match item
    case Int32(i) => -0x8000_0000 <= i < 0x8000_0000
    case Uint32(u) => u < TWO32
    case Int64(i) => -0x8000_0000_0000_0000 <= i < 0x8000_0000_0000_0000
    case Uint64(u) => u < TWO64
    case CString(chars) => |chars| < MAX_SIZE && forall i :: 0 <= i < |chars| ==> chars[i] != 0
    case String16(units) => 2 * |units| + 2 <= MAX_SIZE && forall i :: 0 <= i < |units| ==> units[i] < 0x1_0000
  }

  /** The bits of a signed value. */
  function Bits32(i: int): nat
  {
    i % TWO32
  }

  function Bits64(i: int): nat
  {
    i % TWO64
  }

  function UnitBytes(units: seq<nat>): (r: seq<byte>)
    requires forall i :: 0 <= i < |units| ==> units[i] < 0x1_0000
    ensures |r| == 2 * |units|
  {
    if units == [] then [] else UnitBytes(units[..|units| - 1]) + Put16(units[|units| - 1])
  }

  ghost function Encoded(item: Item): seq<byte>
    requires IsItem(item)
  {
    match item
    case Int32(i) => Put32(Bits32(i))
    case Uint32(u) => Put32(u)
    case Int64(i) => Put64(Bits64(i))
    case Uint64(u) => Put64(u)
    case CString(chars) => PaddedBytes(chars + [0])
    case String16(units) => Put32(|units|) + PaddedBytes(UnitBytes(units) + Put16(0))
  }

  // ---------- Reading, as functions of the data and the cursor ----------

  function Read32(data: seq<byte>, pos: nat): Option<nat>
  {
    if pos + 4 <= |data| then Some(U32At(data, pos)) else None
  }

  function Read64(data: seq<byte>, pos: nat): Option<nat>
  {
    if pos + 8 <= |data| then Some(U64At(data, pos)) else None
  }

  /** The first NUL from pos on, or the end of the data. */
  function FindNul(data: seq<byte>, pos: nat): (end: nat)
    requires pos <= |data|
    ensures pos <= end <= |data| && (end < |data| ==> data[end] == 0)
    ensures forall i :: pos <= i < end ==> data[i] != 0
    decreases |data| - pos
  {
    if pos == |data| || data[pos] == 0 then pos else FindNul(data, pos + 1)
  }

  /** Chars of the string at pos, and the position behind its padding. */
  function ReadC(data: seq<byte>, pos: nat): Option<(seq<byte>, nat)>
    requires pos <= |data|
  {
    var end := FindNul(data, pos);
    if end < |data| then Some((data[pos..end], pos + PadSize(end - pos + 1))) else None
  }

  function UnitsAt(data: seq<byte>, pos: nat, n: nat): (r: seq<nat>)
    requires pos + 2 * n <= |data|
    ensures |r| == n
  {
    if n == 0 then [] else UnitsAt(data, pos, n - 1) + [U16At(data, pos + 2 * (n - 1))]
  }

  /** A 16-bit string: its length, its units and a terminator; and the position behind what was read. */
  function Read16(data: seq<byte>, pos: nat): (Option<seq<nat>>, nat)
  {
    match Read32(data, pos)
    case None => (None, pos)
    case Some(u) =>
      var len := 2 * (u + 1);
      if u < MAX_SIZE && len <= MAX_SIZE && pos + 4 + PadSize(len) <= |data| then
        (Some(UnitsAt(data, pos + 4, u)), pos + 4 + PadSize(len))
      else (None, pos + 4)
  }

  datatype Kind = OfInt32 | OfUint32 | Of64 | OfCString | OfString16

  function KindOf(item: Item): Kind
  {
    match item
    case Int32(_) => OfInt32
    case Uint32(_) => OfUint32
    case Int64(_) => Of64
    case Uint64(_) => Of64
    case CString(_) => OfCString
    case String16(_) => OfString16
  }

  /** One item from pos on, and the position behind it. A missing number reads as zero. */
  function ReadOne(kind: Kind, data: seq<byte>, pos: nat): (Option<Item>, nat)
    requires pos <= |data|
  {
    match kind
    case OfInt32 =>
      var v := Read32(data, pos);
      (Some(Int32(if v.Some? then SignedOf(v.value) else 0)), if v.Some? then pos + 4 else pos)
    case OfUint32 =>
      var v := Read32(data, pos);
      (Some(Uint32(if v.Some? then v.value else 0)), if v.Some? then pos + 4 else pos)
    case Of64 =>
      var v := Read64(data, pos);
      (Some(Uint64(if v.Some? then v.value else 0)), if v.Some? then pos + 8 else pos)
    case OfCString =>
      var v := ReadC(data, pos);
      if v.Some? then (Some(CString(v.value.0)), v.value.1) else (None, pos)
    case OfString16 =>
      var v := Read16(data, pos);
      (if v.0.Some? then Some(String16(v.0.value)) else None, v.1)
  }

  function SignedOf(u: nat): int
  {
    if u < 0x8000_0000 then u else u - TWO32
  }

  /** What an item is read back as: a signed 64-bit value by its bits. */
  function ReadBack(item: Item): Item
  {
    if item.Int64? then Uint64(Bits64(item.i)) else item
  }

  // ---------- What is written is read back ----------

  ghost predicate StandsAt(data: seq<byte>, pos: nat, bytes: seq<byte>)
  {
    pos + |bytes| <= |data| && data[pos..pos + |bytes|] == bytes
  }

  lemma StandsInTwo(data: seq<byte>, pos: nat, a: seq<byte>, b: seq<byte>)
    requires StandsAt(data, pos, a + b)
    ensures StandsAt(data, pos, a) && StandsAt(data, pos + |a|, b)
  {
    var all := data[pos..pos + |a + b|];
    assert all[..|a|] == a && all[|a|..] == b;
    assert data[pos..pos + |a|] == all[..|a|];
    assert data[pos + |a|..pos + |a| + |b|] == all[|a|..];
  }

  lemma {:induction false} UnitsReadBack(data: seq<byte>, pos: nat, units: seq<nat>)
    requires forall i :: 0 <= i < |units| ==> units[i] < 0x1_0000
    requires StandsAt(data, pos, UnitBytes(units))
    ensures UnitsAt(data, pos, |units|) == units
    decreases |units|
  {
    hide U16At, Put16;
    if units != [] {
      var front, last := units[..|units| - 1], units[|units| - 1];
      StandsInTwo(data, pos, UnitBytes(front), Put16(last));
      UnitsReadBack(data, pos, front);
      Put16Read(last, data, pos + 2 * |front|);
    }
  }

  lemma {:induction false} NulIsAt(data: seq<byte>, pos: nat, end: nat)
    requires pos <= end < |data| && data[end] == 0 && forall i :: pos <= i < end ==> data[i] != 0
    ensures FindNul(data, pos) == end
    decreases end - pos
  {
    if pos < end {
      NulIsAt(data, pos + 1, end);
    }
  }

  lemma CStringReadsBack(data: seq<byte>, pos: nat, chars: seq<byte>)
    requires IsItem(CString(chars)) && StandsAt(data, pos, Encoded(CString(chars)))
    ensures ReadC(data, pos) == Some((chars, pos + |Encoded(CString(chars))|))
  {
    hide FindNul, Padding, StandsAt;
    StandsInTwo(data, pos, chars + [0], ZeroBytes(Padding(|chars| + 1)));
    NulStands(data, pos, chars);
  }

  lemma NulStands(data: seq<byte>, pos: nat, chars: seq<byte>)
    requires StandsAt(data, pos, chars + [0]) && forall i :: 0 <= i < |chars| ==> chars[i] != 0
    ensures var end := pos + |chars|;
            pos <= end < |data| && data[pos..end] == chars && FindNul(data, pos) == end
  {
    hide FindNul;
    StandsInTwo(data, pos, chars, [0]);
    var end := pos + |chars|;
    assert data[end] == data[end..end + 1][0] == 0;
    forall i | pos <= i < end
      ensures data[i] != 0
    {
      assert data[i] == data[pos..end][i - pos] == chars[i - pos];
    }
    NulIsAt(data, pos, end);
  }

  lemma String16ReadsBack(data: seq<byte>, pos: nat, units: seq<nat>)
    requires IsItem(String16(units)) && StandsAt(data, pos, Encoded(String16(units)))
    ensures Read16(data, pos) == (Some(units), pos + |Encoded(String16(units))|)
  {
    hide Padding, UnitBytes, Put32, Put16, U32At, UnitsAt, StandsAt;
    var body := UnitBytes(units) + Put16(0);
    StandsInTwo(data, pos, Put32(|units|), PaddedBytes(body));
    StandsInTwo(data, pos + 4, body, ZeroBytes(Padding(|body|)));
    StandsInTwo(data, pos + 4, UnitBytes(units), Put16(0));
    StandsRead32(data, pos, |units|);
    UnitsReadBack(data, pos + 4, units);
    StandsInside(data, pos + 4, PaddedBytes(body));
  }

  lemma StandsInside(data: seq<byte>, pos: nat, bytes: seq<byte>)
    requires StandsAt(data, pos, bytes)
    ensures pos + |bytes| <= |data|
  {
  }

  lemma StandsRead32(data: seq<byte>, pos: nat, u: nat)
    requires u < TWO32 && StandsAt(data, pos, Put32(u))
    ensures Read32(data, pos) == Some(u)
  {
    hide U32At, Put32;
    Put32Read(u, data, pos);
  }

  lemma SignedBits(i: int)
    requires -0x8000_0000 <= i < 0x8000_0000
    ensures SignedOf(Bits32(i)) == i
  {
  }

  /** Wherever the bytes of an item stand, the matching reader reads it back and stops behind them. */
  lemma ReadsBack(data: seq<byte>, pos: nat, item: Item)
    requires IsItem(item) && StandsAt(data, pos, Encoded(item))
    ensures pos <= |data| && ReadOne(KindOf(item), data, pos) == (Some(ReadBack(item)), pos + |Encoded(item)|)
  {
    hide ReadC, Read16, U32At, U64At, Put32, Put64, PaddedBytes, UnitBytes;
    match item
    case Int32(i) => Put32Read(Bits32(i), data, pos); SignedBits(i);
    case Uint32(u) => Put32Read(u, data, pos);
    case Int64(i) => Put64Read(Bits64(i), data, pos);
    case Uint64(u) => Put64Read(u, data, pos);
    case CString(chars) => CStringReadsBack(data, pos, chars);
    case String16(units) => String16ReadsBack(data, pos, units);
  }

  // ---------- The buffer ----------

  /** The size asked for when the data must grow by len. */
  function Grown(size: nat, len: nat): nat
  {
    (size + len) * 3 / 2
  }

  function Max(a: nat, b: nat): nat
  {
    if a < b then b else a
  }

  /** What becomes of a write of len bytes: it fits, or the buffer grows, or the new size is refused by the parcel
      or by the allocator. */
  datatype Fate = Fits | Grows | TooBig | NoBlock

  function FateOf(pos: nat, size: nat, capacity: nat, len: nat, memory: nat): Fate
  {
    if pos + len <= capacity then Fits
    else if Grown(size, len) > MAX_SIZE then TooBig
    else if Grown(size, len) > memory then NoBlock
    else Grows
  }

  /** The capacity behind a write of len bytes that took place. */
  function CapacityAfter(fate: Fate, size: nat, capacity: nat, len: nat): nat
  {
    if fate.Grows? then Grown(size, len) else capacity
  }

  /** Data with bytes written over it from pos on. */
  function Overwrite(data: seq<byte>, pos: nat, bytes: seq<byte>): seq<byte>
    requires pos <= |data|
  {
    data[..pos] + bytes + (if pos + |bytes| <= |data| then data[pos + |bytes|..] else [])
  }

  class Parcel {
    /** The largest block the allocator grants. */
    const memory: nat
    var mError: Status
    var mData: array?<byte>
    var mDataSize: nat
    var mDataCapacity: nat
    var mDataPos: nat

    ghost predicate Valid()
      reads this, mData
    {
      && (mData == null ==> mDataCapacity == 0)
      && (mData != null ==> mData.Length == mDataCapacity)
      && mDataPos <= mDataSize <= mDataCapacity <= MAX_SIZE
    }

    ghost function Data(): seq<byte>
      reads `mData, `mDataSize, mData
    {
      if mData == null || mDataSize > mData.Length then [] else mData[..mDataSize]
    }

    ghost predicate Aligned()
      reads this
    {
      mDataPos % 4 == 0 && mDataSize % 4 == 0
    }

    ghost function FateNow(len: nat): Fate
      reads this
    {
      FateOf(mDataPos, mDataSize, mDataCapacity, len, memory)
    }

    /** The fate of the units of a string, behind the four bytes of their number. */
    ghost function FateOfUnits(units: seq<nat>): Fate
      reads this
    {
      FateOf(mDataPos + 4, Max(mDataSize, mDataPos + 4), CapacityAfter(FateNow(4), mDataSize, mDataCapacity, 4),
             PadSize(2 * |units| + 2), memory)
    }

    constructor (memory: nat)
      ensures Valid() && Aligned() && this.memory == memory && mError == NoError && mData == null
      ensures mDataSize == 0 && mDataPos == 0
    {
      this.memory := memory;
      mError := NoError;
      mData := null;
      mDataSize, mDataCapacity, mDataPos := 0, 0, 0;
    }

    /** Makes room for desired bytes. A growth keeps every byte there is; when there is room already, the data is cut
        down to the desired size. */
    method ContinueWrite(desired: nat) returns (status: Status)
      requires Valid()
      modifies this
      ensures Valid() && (mData == old(mData) || fresh(mData))
      ensures desired > MAX_SIZE ==> status == BadValue && mDataCapacity == old(mDataCapacity) && mData == old(mData)
      ensures desired <= MAX_SIZE && (old(mData) == null || desired > old(mDataCapacity)) ==>
                if desired > memory then
                  status == NoMemory && mDataCapacity == old(mDataCapacity) && mData == old(mData)
                else status == NoError && mDataCapacity == desired && mData != null && fresh(mData)
      ensures desired <= MAX_SIZE && old(mData) != null && desired <= old(mDataCapacity) ==>
                && status == NoError && mDataCapacity == old(mDataCapacity) && mData == old(mData)
                && mDataSize == Min(old(mDataSize), desired) && mDataPos == Min(old(mDataPos), desired)
      ensures status != NoError || old(mData) == null || desired > old(mDataCapacity) ==>
                Data() == old(Data()) && mDataPos == old(mDataPos) && mDataSize == old(mDataSize)
      ensures mError == if status == NoMemory then NoMemory else old(mError)
    {
      if desired > MAX_SIZE {
        return BadValue;
      }
      if mData != null && desired <= mDataCapacity {
        if mDataSize > desired {
          mDataSize := desired;
        }
        if mDataPos > desired {
          mDataPos := desired;
        }
        return NoError;
      }
      if desired > memory {
        mError := NoMemory;
        return NoMemory;
      }
      var data := new byte[desired];
      if mData != null {
        forall i | 0 <= i < mDataCapacity {
          data[i] := mData[i];
        }
        assert data[..mDataSize] == mData[..mDataSize];
      }
      mData, mDataCapacity := data, desired;
      return NoError;
    }

    /** Grows by half as much again as is needed. */
    method GrowData(len: nat) returns (status: Status)
      requires Valid() && mDataPos + len > mDataCapacity
      modifies this
      ensures Valid() && Data() == old(Data()) && mDataPos == old(mDataPos)
      ensures status == match old(FateNow(len)) case TooBig => BadValue case NoBlock => NoMemory case _ => NoError
      ensures status == NoError ==> mData != null && fresh(mData) && mDataPos + len <= mDataCapacity
      ensures status == NoError ==> mDataCapacity == Grown(old(mDataSize), len)
      ensures status != NoError ==> mDataCapacity == old(mDataCapacity) && mData == old(mData)
      ensures mError == if status == NoMemory then NoMemory else old(mError)
    {
      if len > MAX_SIZE {
        return BadValue;
      }
      var newSize := (mDataSize + len) * 3 / 2;
      status := ContinueWrite(newSize);
    }

    method Store(at: nat, bytes: seq<byte>)
      requires Valid() && mData != null && at + |bytes| <= mDataCapacity
      modifies mData
      ensures Valid() && mData[..] == old(mData[..at]) + bytes + old(mData[at + |bytes|..])
    {
      forall i | 0 <= i < |bytes| {
        mData[at + i] := bytes[i];
      }
    }

    method FinishWrite(len: nat)
      requires Valid() && mDataPos + len <= mDataCapacity
      modifies `mDataPos, `mDataSize
      ensures Valid() && mDataPos == old(mDataPos) + len
      ensures mDataSize == if mDataPos > old(mDataSize) then mDataPos else old(mDataSize)
    {
      mDataPos := mDataPos + len;
      if mDataPos > mDataSize {
        mDataSize := mDataPos;
      }
    }

    /** writeAligned, for a value of these bytes. */
    method WriteAligned(bytes: seq<byte>) returns (status: Status)
      requires Valid() && 0 < |bytes| <= 8
      modifies this, mData
      ensures Valid() && (mData == old(mData) || fresh(mData))
      ensures status == match old(FateNow(|bytes|)) case TooBig => BadValue case NoBlock => NoMemory case _ => NoError
      ensures status == NoError ==> mDataPos == old(mDataPos) + |bytes|
      ensures status == NoError ==> Data() == Overwrite(old(Data()), old(mDataPos), bytes)
      ensures status == NoError ==>
                && mData != null && mDataSize == Max(old(mDataSize), mDataPos)
                && mDataCapacity == CapacityAfter(old(FateNow(|bytes|)), old(mDataSize), old(mDataCapacity), |bytes|)
      ensures status != NoError ==> Data() == old(Data()) && mDataPos == old(mDataPos)
      ensures mError == if status == NoMemory then NoMemory else old(mError)
    {
      if mDataPos + |bytes| > mDataCapacity {
        status := GrowData(|bytes|);
        if status != NoError {
          return;
        }
      }
      PutBytes(bytes);
      return NoError;
    }

    /** Stores bytes at the cursor, where there is room. */
    method PutBytes(bytes: seq<byte>)
      requires Valid() && mData != null && mDataPos + |bytes| <= mDataCapacity
      modifies mData, `mDataPos, `mDataSize
      ensures Valid() && mDataPos == old(mDataPos) + |bytes| && mDataSize == Max(old(mDataSize), mDataPos)
      ensures Data() == Overwrite(old(Data()), old(mDataPos), bytes)
    {
      hide Overwrite;
      ghost var c, size, at := mData[..], mDataSize, mDataPos;
      Store(mDataPos, bytes);
      FinishWrite(|bytes|);
      OverwriteInArray(c, size, at, bytes);
      assert Data() == mData[..][..mDataSize];
    }

    /** Sets len bytes apart at the cursor, with zeros up to four-byte alignment behind them. There is no place to
        point to when nothing was ever allocated. */
    method WriteInplace(len: nat) returns (at: Option<nat>)
      requires Valid()
      modifies this, mData
      ensures Valid() && (mData == old(mData) || fresh(mData))
      ensures len > MAX_SIZE ==> at.None?
      ensures len <= MAX_SIZE && old(mData) == null && len == 0 ==> at.None?
      ensures len <= MAX_SIZE && (old(mData) != null || len > 0) ==>
                (at.Some? <==> old(FateNow(PadSize(len))).Fits? || old(FateNow(PadSize(len))).Grows?)
      ensures at.None? ==> Data() == old(Data()) && mDataPos == old(mDataPos)
      ensures at.Some? ==> at.value == old(mDataPos) && mData != null && mDataPos == old(mDataPos) + PadSize(len)
      ensures at.Some? ==> SetApart(old(Data()), Data(), old(mDataPos), len)
      ensures mError == if len <= MAX_SIZE && old(FateNow(PadSize(len))).NoBlock? then NoMemory else old(mError)
    {
      if len > MAX_SIZE {
        return None;
      }
      var padded := PadSize(len);
      if mDataPos + padded > mDataCapacity {
        var status := GrowData(padded);
        if status != NoError {
          return None;
        }
      }
      if mData == null {
        return None;
      }
      var p := mDataPos;
      PutPadding(len);
      return Some(p);
    }

    /** Zeros behind a place of len bytes at the cursor, where there is room. */
    method PutPadding(len: nat)
      requires Valid() && mData != null && mDataPos + PadSize(len) <= mDataCapacity
      modifies mData, `mDataPos, `mDataSize
      ensures Valid() && mDataPos == old(mDataPos) + PadSize(len)
      ensures SetApart(old(Data()), Data(), old(mDataPos), len)
    {
      hide SetApart, Padding;
      ghost var c, size, at := mData[..], mDataSize, mDataPos;
      Store(mDataPos + len, ZeroBytes(PadSize(len) - len));
      FinishWrite(PadSize(len));
      SetApartInArray(c, size, at, len);
      assert Data() == mData[..][..mDataSize];
    }

    /** write: the bytes, padded. When the grown size is too big the parcel returns the error of earlier calls, which
        may be none. */
    method Write(bytes: seq<byte>) returns (status: Status)
      requires Valid()
      modifies this, mData
      ensures Valid() && (mData == old(mData) || fresh(mData))
      ensures status == WriteStatus(|bytes|, old(FateNow(PadSize(|bytes|))), old(mData) == null, old(mError))
      ensures IsWritten(|bytes|, old(FateNow(PadSize(|bytes|)))) ==> mDataPos == old(mDataPos) + PadSize(|bytes|)
      ensures IsWritten(|bytes|, old(FateNow(PadSize(|bytes|)))) ==>
                Data() == Overwrite(old(Data()), old(mDataPos), PaddedBytes(bytes))
      ensures !IsWritten(|bytes|, old(FateNow(PadSize(|bytes|)))) ==> Data() == old(Data()) && mDataPos == old(mDataPos)
      ensures mError == if |bytes| <= MAX_SIZE && old(FateNow(PadSize(|bytes|))).NoBlock? then NoMemory else old(mError)
    {
      if |bytes| > MAX_SIZE {
        return BadValue;
      }
      hide SetApart, Overwrite, PaddedBytes, PadSize;
      ghost var before := Data();
      var at := WriteInplace(|bytes|);
      if at.Some? {
        FillIn(at.value, bytes, before);
        return NoError;
      }
      if bytes == [] {
        NothingWritten(before, mDataPos, bytes);
      }
      return mError;
    }

    /** Copies bytes to a place set apart for them. */
    method FillIn(p: nat, bytes: seq<byte>, ghost before: seq<byte>)
      requires Valid() && mData != null && p <= |before| && SetApart(before, Data(), p, |bytes|)
      modifies mData
      ensures Valid() && Data() == Overwrite(before, p, PaddedBytes(bytes))
    {
      hide Overwrite, PaddedBytes, Padding, SetApart;
      SetApartFits(before, Data(), p, |bytes|);
      ghost var c := mData[..];
      Store(p, bytes);
      FilledIn(before, c[..mDataSize], p, bytes);
      FrontOfFilled(c, mDataSize, p, bytes);
      assert Data() == mData[..][..mDataSize];
    }

    /** writeInt32, writeUint32, writeInt64 and writeUint64 store the bits of their value. */
    method WriteInt32(i: int) returns (status: Status)
      requires Valid() && IsItem(Int32(i))
      modifies this, mData
      ensures Appended(status, Encoded(Int32(i)), old(FateNow(4)), old(Data()), old(mDataPos), old(mError))
      ensures mData == old(mData) || fresh(mData)
    {
      status := WriteAligned(Put32(Bits32(i)));
    }

    method WriteUint32(u: nat) returns (status: Status)
      requires Valid() && IsItem(Uint32(u))
      modifies this, mData
      ensures Appended(status, Encoded(Uint32(u)), old(FateNow(4)), old(Data()), old(mDataPos), old(mError))
      ensures mData == old(mData) || fresh(mData)
    {
      status := WriteAligned(Put32(u));
    }

    method WriteInt64(i: int) returns (status: Status)
      requires Valid() && IsItem(Int64(i))
      modifies this, mData
      ensures Appended(status, Encoded(Int64(i)), old(FateNow(8)), old(Data()), old(mDataPos), old(mError))
      ensures mData == old(mData) || fresh(mData)
    {
      status := WriteAligned(Put64(Bits64(i)));
    }

    method WriteUint64(u: nat) returns (status: Status)
      requires Valid() && IsItem(Uint64(u))
      modifies this, mData
      ensures Appended(status, Encoded(Uint64(u)), old(FateNow(8)), old(Data()), old(mDataPos), old(mError))
      ensures mData == old(mData) || fresh(mData)
    {
      status := WriteAligned(Put64(u));
    }

    /** What a write of an aligned value does, by the fate of its bytes. */
    ghost predicate Appended(status: Status, bytes: seq<byte>, fate: Fate, data: seq<byte>, pos: nat, error: Status)
      requires pos <= |data|
      reads this, mData
    {
      && Valid()
      && status == (match fate case TooBig => BadValue case NoBlock => NoMemory case _ => NoError)
      && mError == (if status == NoMemory then NoMemory else error)
      && if status == NoError then mDataPos == pos + |bytes| && Data() == Overwrite(data, pos, bytes)
         else mDataPos == pos && Data() == data
    }

    method WriteCString(chars: seq<byte>) returns (status: Status)
      requires Valid() && IsItem(CString(chars))
      modifies this, mData
      ensures Valid() && (mData == old(mData) || fresh(mData))
      ensures status == WriteStatus(|chars| + 1, old(FateNow(PadSize(|chars| + 1))), false, old(mError))
      ensures var fate := old(FateNow(PadSize(|chars| + 1)));
              if fate.Fits? || fate.Grows? then
                mDataPos == old(mDataPos) + |Encoded(CString(chars))|
                && Data() == Overwrite(old(Data()), old(mDataPos), Encoded(CString(chars)))
              else mDataPos == old(mDataPos) && Data() == old(Data())
    {
      hide PadSize, Overwrite, PaddedBytes;
      status := Write(chars + [0]);
    }

    /** writeString16: the number of units, the units, and a terminator; -1 for no string. */
    method WriteString16(str: Option<seq<nat>>) returns (status: Status)
      requires Valid() && (str.Some? ==> IsItem(String16(str.value)))
      modifies this, mData
      ensures Valid() && (mData == old(mData) || fresh(mData))
      ensures str.None? ==>
                Appended(status, Encoded(Int32(-1)), old(FateNow(4)), old(Data()), old(mDataPos), old(mError))
      ensures str.Some? ==>
                StringWritten(str.value, status, old(FateNow(4)), old(FateOfUnits(str.value)), old(Data()),
                              old(mDataPos), old(mError))
    {
      if str.None? {
        status := WriteInt32(-1);
      } else {
        status := WriteUnits(str.value);
      }
    }

    method WriteUnits(units: seq<nat>) returns (status: Status)
      requires Valid() && IsItem(String16(units))
      modifies this, mData
      ensures Valid() && (mData == old(mData) || fresh(mData))
      ensures StringWritten(units, status, old(FateNow(4)), old(FateOfUnits(units)), old(Data()), old(mDataPos),
                            old(mError))
    {
      hide SetApart, Overwrite, PaddedBytes, UnitBytes, PadSize, FateOf, Grown, Put32, Put16;
      ghost var before, start := Data(), mDataPos;
      status := WriteAligned(Put32(|units|));
      if status != NoError {
        return;
      }
      ghost var between := Data();
      var body := UnitBytes(units) + Put16(0);
      OverwriteTwice(before, start, Put32(|units|), PaddedBytes(body));
      assert FateNow(PadSize(|body|)) == old(FateOfUnits(units));
      var at := WriteInplace(|body|);
      if at.None? {
        return mError;
      }
      FillIn(at.value, body, between);
      return NoError;
    }

    /** What a write of a string does, by the fate of its length and that of its units: nothing, all of it, or only the
        length. When the size grown for the units is too big the error of earlier calls is returned, which may be
        none. */
    ghost predicate StringWritten(units: seq<nat>, status: Status, first: Fate, second: Fate, data: seq<byte>, pos: nat,
                                  error: Status)
      requires pos <= |data| && IsItem(String16(units))
      reads this, mData
    {
      && Valid()
      && status == StringStatus(first, second, error)
      && mError == (if first.NoBlock? || (IsWritten(4, first) && second.NoBlock?) then NoMemory else error)
      && if !IsWritten(4, first) then mDataPos == pos && Data() == data
         else if IsWritten(4, second) then
           mDataPos == pos + |Encoded(String16(units))| && Data() == Overwrite(data, pos, Encoded(String16(units)))
         else mDataPos == pos + 4 && Data() == Overwrite(data, pos, Put32(|units|))
    }

    // ---------- The reading end ----------

    method SetDataPosition(pos: nat)
      requires Valid() && pos <= mDataSize
      modifies `mDataPos
      ensures Valid() && mDataPos == pos
    {
      mDataPos := pos;
    }

    /** readAligned for four bytes; zero when there are not enough. */
    method ReadAligned32() returns (status: Status, u: nat)
      requires Valid()
      modifies `mDataPos
      ensures Valid() && u < TWO32
      ensures match Read32(Data(), old(mDataPos))
              case Some(v) => status == NoError && u == v && mDataPos == old(mDataPos) + 4
              case None => status == NotEnoughData && u == 0 && mDataPos == old(mDataPos)
    {
      hide U32At;
      if mDataPos + 4 <= mDataSize {
        var p := mDataPos;
        mDataPos := mDataPos + 4;
        U32Below(mData[..mDataSize], p);
        return NoError, U32At(mData[..mDataSize], p);
      }
      return NotEnoughData, 0;
    }

    method ReadAligned64() returns (status: Status, u: nat)
      requires Valid()
      modifies `mDataPos
      ensures Valid()
      ensures match Read64(Data(), old(mDataPos))
              case Some(v) => status == NoError && u == v && mDataPos == old(mDataPos) + 8
              case None => status == NotEnoughData && u == 0 && mDataPos == old(mDataPos)
    {
      hide U64At;
      if mDataPos + 8 <= mDataSize {
        var p := mDataPos;
        mDataPos := mDataPos + 8;
        return NoError, U64At(mData[..mDataSize], p);
      }
      return NotEnoughData, 0;
    }

    /** readInplace: where len bytes stand, if they and their padding do. */
    method ReadInplace(len: nat) returns (at: Option<nat>)
      requires Valid()
      modifies `mDataPos
      ensures Valid()
      ensures len <= MAX_SIZE && old(mDataPos) + PadSize(len) <= mDataSize ==>
                at == Some(old(mDataPos)) && mDataPos == old(mDataPos) + PadSize(len)
      ensures !(len <= MAX_SIZE && old(mDataPos) + PadSize(len) <= mDataSize) ==>
                at == None && mDataPos == old(mDataPos)
    {
      if len > MAX_SIZE {
        return None;
      }
      if mDataPos + PadSize(len) <= mDataSize {
        at := Some(mDataPos);
        mDataPos := mDataPos + PadSize(len);
      } else {
        at := None;
      }
    }

    method ReadString16() returns (str: Option<seq<nat>>)
      requires Valid()
      modifies `mDataPos
      ensures Valid() && (str, mDataPos) == Read16(Data(), old(mDataPos)) && (old(Aligned()) ==> Aligned())
    {
      hide U32At, UnitsAt, PadSize;
      ghost var start := mDataPos;
      var status, size := ReadAligned32();
      if size < MAX_SIZE {
        if status == NotEnoughData {
          ShortPlace(start, mDataSize);
        }
        var at := ReadInplace((size + 1) * 2);
        if at.Some? {
          PlaceHolds(2 * (size + 1));
          return Some(UnitsAt(mData[..mDataSize], at.value, size));
        }
      }
      return None;
    }

    /** readCString: up to the first NUL, which must come before the end. */
    method ReadCString() returns (str: Option<seq<byte>>)
      requires Valid() && Aligned()
      modifies `mDataPos
      ensures Valid() && Aligned()
      ensures match ReadC(Data(), old(mDataPos))
              case Some((chars, next)) => str == Some(chars) && mDataPos == next
              case None => str == None && mDataPos == old(mDataPos)
    {
      hide FindNul, PadSize;
      var avail := mDataSize - mDataPos;
      str := None;
      if avail > 0 {
        var eos := FindNul(mData[..mDataSize], mDataPos);
        if eos < mDataSize {
          var len := eos - mDataPos;
          str := Some(mData[mDataPos..eos]);
          assert mData[..mDataSize][mDataPos..eos] == mData[mDataPos..eos];
          PaddedInside(mDataPos, len + 1, mDataSize);
          mDataPos := mDataPos + PadSize(len + 1);
        }
      }
    }

    // ---------- Any item ----------

    /** What the write of an item at the end of the data promises: the item is there, or there was no memory for
        it. */
    ghost predicate WrittenAtEnd(status: Status, item: Item, data: seq<byte>)
      requires IsItem(item)
      reads this, mData
    {
      && Valid()
      && (status == NoError ==> Data() == data + Encoded(item) && mDataPos == mDataSize)
      && (status != NoError ==> status == NoMemory && memory < Grown(|data|, |Encoded(item)|))
    }

    /** Writes an item with its own method. At the end of data that will not outgrow the parcel, the status tells
        the truth. */
    method WriteItem(item: Item) returns (status: Status)
      requires Valid() && Aligned() && IsItem(item) && mDataPos == mDataSize
      requires Grown(mDataSize, |Encoded(item)|) <= MAX_SIZE
      modifies this, mData
      ensures Valid() && (mData == old(mData) || fresh(mData))
      ensures WrittenAtEnd(status, item, old(Data())) && (status == NoError ==> Aligned())
    {
      hide Encoded, Grown, PadSize;
      EncodedSize(item);
      match item
      case String16(units) => status := WriteString16AtEnd(units);
      case CString(chars) => status := WriteCStringAtEnd(chars);
      case _ => status := WriteNumberAtEnd(item);
      AlignedSum(mDataSize, old(mDataSize), |Encoded(item)|);
    }

    method WriteNumberAtEnd(item: Item) returns (status: Status)
      requires Valid() && IsItem(item) && mDataPos == mDataSize && !item.CString? && !item.String16?
      requires Grown(mDataSize, |Encoded(item)|) <= MAX_SIZE
      modifies this, mData
      ensures Valid() && (mData == old(mData) || fresh(mData))
      ensures WrittenAtEnd(status, item, old(Data()))
    {
      hide PadSize, Overwrite, Put32, Put64, Encoded, Grown, FateOf;
      EncodedSize(item);
      FateMeans(mDataPos, mDataSize, mDataCapacity, |Encoded(item)|, memory);
      OverwriteAtEnd(Data(), Encoded(item));
      match item
      case Int32(i) => status := WriteInt32(i);
      case Uint32(u) => status := WriteUint32(u);
      case Int64(i) => status := WriteInt64(i);
      case Uint64(u) => status := WriteUint64(u);
    }

    method WriteCStringAtEnd(chars: seq<byte>) returns (status: Status)
      requires Valid() && IsItem(CString(chars)) && mDataPos == mDataSize
      requires Grown(mDataSize, |Encoded(CString(chars))|) <= MAX_SIZE
      modifies this, mData
      ensures Valid() && (mData == old(mData) || fresh(mData))
      ensures WrittenAtEnd(status, CString(chars), old(Data()))
    {
      hide PadSize, Overwrite, PaddedBytes, Encoded, Grown, FateOf;
      EncodedSize(CString(chars));
      FateMeans(mDataPos, mDataSize, mDataCapacity, |Encoded(CString(chars))|, memory);
      OverwriteAtEnd(Data(), Encoded(CString(chars)));
      status := WriteCString(chars);
    }

    method WriteString16AtEnd(units: seq<nat>) returns (status: Status)
      requires Valid() && IsItem(String16(units)) && mDataPos == mDataSize
      requires Grown(mDataSize, |Encoded(String16(units))|) <= MAX_SIZE
      modifies this, mData
      ensures Valid() && (mData == old(mData) || fresh(mData))
      ensures WrittenAtEnd(status, String16(units), old(Data()))
    {
      hide PadSize, Overwrite, PaddedBytes, UnitBytes, Put32, Encoded, Grown, FateOf;
      EncodedSize(String16(units));
      PlaceHolds(2 * |units| + 2);
      OverwriteAtEnd(Data(), Encoded(String16(units)));
      SecondFateMeans(mDataPos, mDataSize, mDataCapacity, PadSize(2 * |units| + 2), memory);
      status := WriteString16(Some(units));
    }

    /** Reads an item with the reader that matches its writer; 64-bit values with the unsigned one. */
    method ReadItem(kind: Kind) returns (item: Option<Item>)
      requires Valid() && Aligned()
      modifies `mDataPos
      ensures Valid() && Aligned() && Data() == old(Data())
      ensures (item, mDataPos) == ReadOne(kind, Data(), old(mDataPos))
    {
      hide ReadC, Read16, Read32, Read64;
      match kind
      case OfInt32 =>
        var _, u := ReadAligned32();
        item := Some(Int32(SignedOf(u)));
      case OfUint32 =>
        var _, u := ReadAligned32();
        item := Some(Uint32(u));
      case Of64 =>
        var _, u := ReadAligned64();
        item := Some(Uint64(u));
      case OfCString =>
        var str := ReadCString();
        item := if str.Some? then Some(CString(str.value)) else None;
      case OfString16 =>
        var str := ReadString16();
        item := if str.Some? then Some(String16(str.value)) else None;
    }
  }

  /** Whether a write of len bytes takes place. */
  predicate IsWritten(len: nat, fate: Fate)
  {
    len <= MAX_SIZE && (fate.Fits? || fate.Grows?)
  }

  function WriteStatus(len: nat, fate: Fate, unallocated: bool, mError: Status): Status
  {
    if len > MAX_SIZE then BadValue
    else if fate.NoBlock? then NoMemory
    else if fate.TooBig? || (unallocated && len == 0) then mError
    else NoError
  }

  /** The status of a write of a string. */
  function StringStatus(first: Fate, second: Fate, mError: Status): Status
  {
    match first
    case TooBig => BadValue
    case NoBlock => NoMemory
    case _ => WriteStatus(4, second, false, mError)
  }

  /** From p on, a place of len bytes and zeros behind it; the rest of the data is as it was. */
  ghost predicate SetApart(before: seq<byte>, after: seq<byte>, p: nat, len: nat)
  {
    var end := p + PadSize(len);
    && p <= |before|
    && |after| == (if end > |before| then end else |before|)
    && after[..p] == before[..p]
    && after[p + len..end] == ZeroBytes(PadSize(len) - len)
    && (end <= |before| ==> after[end..] == before[end..])
  }

  lemma OverwriteInArray(c: seq<byte>, size: nat, at: nat, bytes: seq<byte>)
    requires at <= size <= |c| && at + |bytes| <= |c|
    ensures var end := at + |bytes|;
            (c[..at] + bytes + c[end..])[..if end > size then end else size] == Overwrite(c[..size], at, bytes)
  {
  }

  lemma SetApartInArray(c: seq<byte>, size: nat, at: nat, len: nat)
    requires at <= size <= |c| && at + PadSize(len) <= |c|
    ensures var end, zeros := at + PadSize(len), ZeroBytes(PadSize(len) - len);
            var all := c[..at + len] + zeros + c[at + len + |zeros|..];
            SetApart(c[..size], all[..if end > size then end else size], at, len)
  {
    hide Padding;
    var end, zeros := at + PadSize(len), ZeroBytes(PadSize(len) - len);
    PlacePatched(c, size, at, at + len, end, zeros);
  }

  lemma PlacePatched(c: seq<byte>, size: nat, at: nat, from: nat, end: nat, zeros: seq<byte>)
    requires at <= size <= |c| && at <= from <= end <= |c| && |zeros| == end - from
    ensures var all := c[..from] + zeros + c[from + |zeros|..];
            var after := all[..if end > size then end else size];
            && after[..at] == c[..size][..at] && after[from..end] == zeros
            && (end <= size ==> after[end..] == c[..size][end..])
  {
    var all := c[..from] + zeros + c[end..];
    var m := if end > size then end else size;
    PartsOfThree(c[..from], zeros, c[end..]);
    SliceOfTake(all, m, from, end);
    SliceOfTake(all, m, 0, at);
    SliceOfTake(all, from, 0, at);
    SliceOfTake(c, from, 0, at);
    SliceOfTake(c, size, 0, at);
    if end <= size {
      FrontOfTail(all, size, end);
      FrontOfTail(c, size, end);
    }
  }

  lemma SetApartFits(before: seq<byte>, after: seq<byte>, p: nat, len: nat)
    requires p <= |before| && SetApart(before, after, p, len)
    ensures p + len <= |after|
  {
  }

  lemma FrontOfFilled(c: seq<byte>, size: nat, p: nat, bytes: seq<byte>)
    requires p + |bytes| <= size <= |c|
    ensures (c[..p] + bytes + c[p + |bytes|..])[..size] == c[..size][..p] + bytes + c[..size][p + |bytes|..]
  {
    var q := p + |bytes|;
    assert c[..size][q..] == c[q..][..size - q];
  }

  lemma FilledIn(before: seq<byte>, between: seq<byte>, p: nat, bytes: seq<byte>)
    requires p <= |before| && SetApart(before, between, p, |bytes|)
    ensures p + |bytes| <= |between|
    ensures between[..p] + bytes + between[p + |bytes|..] == Overwrite(before, p, PaddedBytes(bytes))
  {
    hide Padding;
    var end := p + PadSize(|bytes|);
    assert between[p + |bytes|..] == between[p + |bytes|..end] + between[end..];
  }

  lemma NothingWritten(before: seq<byte>, p: nat, bytes: seq<byte>)
    requires bytes == [] && p <= |before|
    ensures PadSize(|bytes|) == 0 && Overwrite(before, p, PaddedBytes(bytes)) == before
  {
    hide Padding;
    PaddingOfNone();
    assert PaddedBytes(bytes) == [];
    assert before == before[..p] + before[p..];
  }

  lemma PaddingOfNone()
    ensures Padding(0) == 0
  {
  }

  lemma OverwriteTwice(before: seq<byte>, start: nat, a: seq<byte>, b: seq<byte>)
    requires start <= |before|
    ensures |Overwrite(before, start, a)| == if start + |a| > |before| then start + |a| else |before|
    ensures Overwrite(Overwrite(before, start, a), start + |a|, b) == Overwrite(before, start, a + b)
  {
  }

  lemma U32Below(bytes: seq<byte>, pos: nat)
    requires pos + 4 <= |bytes|
    ensures U32At(bytes, pos) < TWO32
  {
  }

  /** Where there is no room for a length there is none for a terminator. */
  lemma ShortPlace(start: nat, size: nat)
    ensures start + 4 > size ==> start + PadSize(2) > size
  {
  }

  lemma PlaceHolds(len: nat)
    ensures len <= PadSize(len) && PadSize(len) % 4 == 0
  {
  }

  /** In aligned data the padding of what is there is there. */
  lemma PaddedInside(pos: nat, len: nat, size: nat)
    requires pos % 4 == 0 && size % 4 == 0 && pos + len <= size
    ensures pos + PadSize(len) <= size && PadSize(len) % 4 == 0
  {
  }

  lemma FateMeans(pos: nat, size: nat, capacity: nat, len: nat, memory: nat)
    ensures FateOf(pos, size, capacity, len, memory).TooBig? ==> Grown(size, len) > MAX_SIZE
    ensures FateOf(pos, size, capacity, len, memory).NoBlock? ==> Grown(size, len) > memory
  {
  }

  /** The two fates of a string at the end of data that will not outgrow the parcel. */
  lemma SecondFateMeans(pos: nat, size: nat, capacity: nat, len: nat, memory: nat)
    requires pos == size && Grown(size, 4 + len) <= MAX_SIZE
    ensures var first := FateOf(pos, size, capacity, 4, memory);
            var second := FateOf(pos + 4, Max(size, pos + 4), CapacityAfter(first, size, capacity, 4), len, memory);
            && !first.TooBig? && !second.TooBig?
            && (first.NoBlock? || second.NoBlock? ==> Grown(size, 4 + len) > memory)
  {
  }

  lemma AlignedSum(sum: nat, a: nat, b: nat)
    ensures sum == a + b && a % 4 == 0 && b % 4 == 0 ==> sum % 4 == 0
  {
  }

  lemma OverwriteAtEnd(data: seq<byte>, bytes: seq<byte>)
    ensures Overwrite(data, |data|, bytes) == data + bytes
  {
  }

  /** The sizes of the items. */
  lemma EncodedSize(item: Item)
    requires IsItem(item)
    ensures |Encoded(item)| % 4 == 0 && |Encoded(item)| > 0
    ensures item.Int32? || item.Uint32? ==> |Encoded(item)| == 4
    ensures item.Int64? || item.Uint64? ==> |Encoded(item)| == 8
    ensures item.CString? ==> |Encoded(item)| == PadSize(|item.chars| + 1)
    ensures item.String16? ==> |Encoded(item)| == 4 + PadSize(2 * |item.units| + 2)
  {
    hide UnitBytes, PaddedBytes, Put32, Put64, Put16, Padding;
  }

  // ---------- A list of items ----------

  ghost predicate AreItems(items: seq<Item>)
  {
    forall i :: 0 <= i < |items| ==> IsItem(items[i])
  }

  ghost function EncodedAll(items: seq<Item>): seq<byte>
    requires AreItems(items)
  {
    if items == [] then [] else EncodedAll(items[..|items| - 1]) + Encoded(items[|items| - 1])
  }

  /** Item i stands behind the items before it, on a multiple of four. */
  lemma {:induction false} ItemStands(items: seq<Item>, i: nat)
    requires AreItems(items) && i < |items|
    ensures StandsAt(EncodedAll(items), |EncodedAll(items[..i])|, Encoded(items[i]))
    ensures |EncodedAll(items[..i])| + |Encoded(items[i])| == |EncodedAll(items[..i + 1])|
    ensures |EncodedAll(items[..i])| % 4 == 0
    decreases |items|
  {
    hide Encoded;
    AllAligned(items[..i]);
    assert items[..i + 1][..i] == items[..i];
    var front := items[..|items| - 1];
    if i == |items| - 1 {
      assert items[..i + 1] == items;
    } else {
      ItemStands(front, i);
      assert front[..i] == items[..i] && front[..i + 1] == items[..i + 1];
      StandsLonger(EncodedAll(front), Encoded(items[|items| - 1]), |EncodedAll(items[..i])|, Encoded(items[i]));
    }
  }

  lemma StandsLonger(data: seq<byte>, more: seq<byte>, pos: nat, bytes: seq<byte>)
    requires StandsAt(data, pos, bytes)
    ensures StandsAt(data + more, pos, bytes)
  {
    assert (data + more)[pos..pos + |bytes|] == data[pos..pos + |bytes|];
  }

  lemma {:induction false} AllAligned(items: seq<Item>)
    requires AreItems(items)
    ensures |EncodedAll(items)| % 4 == 0
  {
    hide Encoded;
    if items != [] {
      AllAligned(items[..|items| - 1]);
      EncodedSize(items[|items| - 1]);
    }
  }

  lemma OneMoreItem(items: seq<Item>, i: nat)
    requires AreItems(items) && i < |items|
    ensures EncodedAll(items[..i + 1]) == EncodedAll(items[..i]) + Encoded(items[i])
    ensures |EncodedAll(items[..i + 1])| <= |EncodedAll(items)|
  {
    hide Encoded, StandsAt;
    assert items[..i + 1][..i] == items[..i];
    ItemStands(items, i);
    StandsInside(EncodedAll(items), |EncodedAll(items[..i])|, Encoded(items[i]));
  }

  /** Writes all items, one behind the other. */
  method WriteAll(parcel: Parcel, items: seq<Item>) returns (ok: bool)
    requires parcel.Valid() && parcel.mDataSize == 0 && AreItems(items)
    requires Grown(0, |EncodedAll(items)|) <= MAX_SIZE
    modifies parcel, parcel.mData
    ensures parcel.Valid() && (parcel.mData == old(parcel.mData) || fresh(parcel.mData))
    ensures ok ==> parcel.Data() == EncodedAll(items) && parcel.Aligned() && parcel.mDataPos == parcel.mDataSize
    ensures !ok ==> parcel.memory < Grown(0, |EncodedAll(items)|)
  {
    hide Encoded, EncodedAll;
    NoItems(items);
    var i := 0;
    while i < |items|
      invariant i <= |items| && parcel.Valid() && parcel.Aligned() && parcel.mDataPos == parcel.mDataSize
      invariant parcel.Data() == EncodedAll(items[..i])
      invariant parcel.mData == old(parcel.mData) || fresh(parcel.mData)
    {
      OneMoreItem(items, i);
      var status := parcel.WriteItem(items[i]);
      if status != NoError {
        return false;
      }
      i := i + 1;
    }
    assert items[..i] == items;
    return true;
  }

  /** Reads items back with the matching readers. */
  method ReadAll(parcel: Parcel, kinds: seq<Kind>, ghost items: seq<Item>) returns (result: seq<Item>)
    requires parcel.Valid() && parcel.Aligned() && parcel.mDataPos == 0
    requires AreItems(items) && parcel.Data() == EncodedAll(items)
    requires |kinds| == |items| && forall i :: 0 <= i < |items| ==> kinds[i] == KindOf(items[i])
    modifies parcel`mDataPos
    ensures parcel.Valid() && parcel.mDataPos == parcel.mDataSize
    ensures |result| == |items| && forall i :: 0 <= i < |items| ==> result[i] == ReadBack(items[i])
  {
    hide Encoded, EncodedAll, ReadOne, StandsAt, ReadBack, KindOf;
    NoItems(items);
    result := [];
    var i := 0;
    while i < |kinds|
      invariant i <= |items| && parcel.Valid() && parcel.Aligned() && parcel.Data() == EncodedAll(items)
      invariant parcel.mDataPos == |EncodedAll(items[..i])|
      invariant |result| == i && forall k :: 0 <= k < i ==> result[k] == ReadBack(items[k])
    {
      ItemStands(items, i);
      ReadsBack(parcel.Data(), parcel.mDataPos, items[i]);
      var item := parcel.ReadItem(kinds[i]);
      result := result + [item.value];
      i := i + 1;
    }
    assert items[..i] == items;
  }

  /** All items go to a fresh parcel, it is rewound, and read with the matching readers: the same items come back,
      and the cursor stops at the end of the data. Only a lack of memory is in the way. */
  method RoundTrip(items: seq<Item>, memory: nat) returns (ok: bool, result: seq<Item>, end: nat, size: nat)
    requires AreItems(items) && Grown(0, |EncodedAll(items)|) <= MAX_SIZE
    ensures ok ==> |result| == |items| && forall i :: 0 <= i < |items| ==> result[i] == ReadBack(items[i])
    ensures ok ==> end == size == |EncodedAll(items)|
    ensures memory >= Grown(0, |EncodedAll(items)|) ==> ok
  {
    hide EncodedAll, ReadBack;
    var parcel := new Parcel(memory);
    result, end, size := [], 0, 0;
    ok := WriteAll(parcel, items);
    if ok {
      parcel.SetDataPosition(0);
      var kinds := seq(|items|, i requires 0 <= i < |items| => KindOf(items[i]));
      result := ReadAll(parcel, kinds, items);
      end, size := parcel.mDataPos, parcel.mDataSize;
    }
  }

  lemma NoItems(items: seq<Item>)
    ensures items[..0] == [] && EncodedAll([]) == []
  {
  }

  /** A grown size is too big from two thirds of the maximum on. */
  lemma TooBigIff(size: nat, len: nat)
    ensures Grown(size, len) > MAX_SIZE <==> size + len >= 0x5555_5556
  {
  }

  /** Whether the status of a write tells whether it took place: it does not exactly when the grown size is too big
      and no earlier call failed. */
  lemma StatusIsTrueIff(len: nat, fate: Fate, mError: Status)
    requires len > 0
    ensures (WriteStatus(len, fate, false, mError) == NoError <==> IsWritten(len, fate))
       <==> !(len <= MAX_SIZE && fate.TooBig? && mError == NoError)
  {
  }

  /** The status of writeString16 tells whether the whole string was written exactly unless its length was, the size
      grown for its units is too big and no earlier call failed. */
  lemma StringStatusIsTrueIff(first: Fate, second: Fate, mError: Status)
    ensures (StringStatus(first, second, mError) == NoError <==> IsWritten(4, first) && IsWritten(4, second))
       <==> !(IsWritten(4, first) && second.TooBig? && mError == NoError)
  {
  }
}
