/** Numbers in memory, low-order byte first. */
module LittleEndian {
  import opened Bits
  import opened CTypes

  function U16At(bytes: seq<byte>, pos: nat): nat
    requires pos + 2 <= |bytes|
  {
    var low: nat, high: nat := bytes[pos], bytes[pos + 1];
    low + 0x100 * high
  }

  function U32At(bytes: seq<byte>, pos: nat): nat
    requires pos + 4 <= |bytes|
  {
    U16At(bytes, pos) + 0x1_0000 * U16At(bytes, pos + 2)
  }

  function U64At(bytes: seq<byte>, pos: nat): nat
    requires pos + 8 <= |bytes|
  {
    U32At(bytes, pos) + TWO32 * U32At(bytes, pos + 4)
  }

  lemma {:induction false} BitOfSum(low: nat, high: nat, n: nat, k: nat)
    requires low < Pow2(n)
    ensures Bit(low + Pow2(n) * high, k) == if k < n then Bit(low, k) else Bit(high, k - n)
  {
    if n > 0 {
      var s := low + Pow2(n) * high;
      assert s == low + 2 * (Pow2(n - 1) * high);
      assert s % 2 == low % 2 && s / 2 == low / 2 + Pow2(n - 1) * high;
      if k > 0 {
        BitOfSum(low / 2, high, n - 1, k - 1);
      }
    }
  }

  lemma Powers()
    ensures Pow2(8) == 0x100 && Pow2(16) == 0x1_0000 && Pow2(32) == TWO32
  {
    assert Pow2(8) == 0x100;
    assert Pow2(16) == 0x1_0000;
    assert Pow2(24) == 0x100_0000;
  }

  /** Bit k of a number stands in byte k / 8, at k % 8: the low-order byte comes first. */
  lemma BitsOf16(bytes: seq<byte>, pos: nat, k: nat)
    requires pos + 2 <= |bytes| && k < 16
    ensures Bit(U16At(bytes, pos), k) == Bit(bytes[pos + k / 8], k % 8)
  {
    hide Pow2, Bit;
    Powers();
    BitOfSum(bytes[pos], bytes[pos + 1], 8, k);
  }

  lemma BitsOf32(bytes: seq<byte>, pos: nat, k: nat)
    requires pos + 4 <= |bytes| && k < 32
    ensures Bit(U32At(bytes, pos), k) == Bit(bytes[pos + k / 8], k % 8)
  {
    hide Pow2, Bit;
    Powers();
    BitOfSum(U16At(bytes, pos), U16At(bytes, pos + 2), 16, k);
    if k < 16 {
      BitsOf16(bytes, pos, k);
    } else {
      BitsOf16(bytes, pos + 2, k - 16);
    }
  }

  lemma BitsOf64(bytes: seq<byte>, pos: nat, k: nat)
    requires pos + 8 <= |bytes| && k < 64
    ensures Bit(U64At(bytes, pos), k) == Bit(bytes[pos + k / 8], k % 8)
  {
    hide Pow2, Bit;
    Powers();
    BitOfSum(U32At(bytes, pos), U32At(bytes, pos + 4), 32, k);
    if k < 32 {
      BitsOf32(bytes, pos, k);
    } else {
      BitsOf32(bytes, pos + 4, k - 32);
    }
  }

  function Put16(n: nat): (r: seq<byte>)
    requires n < 0x1_0000
    ensures |r| == 2
  {
    [n % 0x100, n / 0x100]
  }

  function Put32(n: nat): (r: seq<byte>)
    requires n < TWO32
    ensures |r| == 4
  {
    Put16(n % 0x1_0000) + Put16(n / 0x1_0000)
  }

  function Put64(n: nat): (r: seq<byte>)
    requires n < TWO64
    ensures |r| == 8
  {
    Put32(n % TWO32) + Put32(n / TWO32)
  }

  /** What is put is read back, wherever it stands. */
  lemma Put16Read(n: nat, bytes: seq<byte>, pos: nat)
    requires n < 0x1_0000 && pos + 2 <= |bytes| && bytes[pos..pos + 2] == Put16(n)
    ensures U16At(bytes, pos) == n
  {
    assert bytes[pos] == bytes[pos..pos + 2][0] && bytes[pos + 1] == bytes[pos..pos + 2][1];
  }

  lemma Put32Read(n: nat, bytes: seq<byte>, pos: nat)
    requires n < TWO32 && pos + 4 <= |bytes| && bytes[pos..pos + 4] == Put32(n)
    ensures U32At(bytes, pos) == n
  {
    hide Put16, U16At;
    var r := bytes[pos..pos + 4];
    assert bytes[pos..pos + 2] == r[..2] == Put16(n % 0x1_0000);
    assert bytes[pos + 2..pos + 4] == r[2..] == Put16(n / 0x1_0000);
    Put16Read(n % 0x1_0000, bytes, pos);
    Put16Read(n / 0x1_0000, bytes, pos + 2);
  }

  lemma Put64Read(n: nat, bytes: seq<byte>, pos: nat)
    requires n < TWO64 && pos + 8 <= |bytes| && bytes[pos..pos + 8] == Put64(n)
    ensures U64At(bytes, pos) == n
  {
    hide Put32, U32At;
    var r := bytes[pos..pos + 8];
    assert bytes[pos..pos + 4] == r[..4] == Put32(n % TWO32);
    assert bytes[pos + 4..pos + 8] == r[4..] == Put32(n / TWO32);
    Put32Read(n % TWO32, bytes, pos);
    Put32Read(n / TWO32, bytes, pos + 4);
  }
}
