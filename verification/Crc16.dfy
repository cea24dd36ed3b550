/** The 16-bit checksum of the stream download link: a table of 256 entries against one bit at a time. */
module Crc16 {

  const SEED: bv16 := 0xFFFF
  const POLYNOMIAL: bv16 := 0x8408
  const RESIDUE: bv16 := 0xF0B8

  // ---------- One bit at a time ----------

  function BitStep(r: bv16): bv16
  {
    if r & 1 == 1 then (r >> 1) ^ POLYNOMIAL else r >> 1
  }

  function FourBits(r: bv16): bv16
  {
    BitStep(BitStep(BitStep(BitStep(r))))
  }

  function Xor(x: bv16, y: bv16): bv16
  {
    x ^ y
  }

  function Wide(b: bv8): bv16
  {
    b as bv16
  }

  /** The register after the eight bits of a byte, low-order bit first. */
  function ByteStep(r: bv16, b: bv8): bv16
  {
    FourBits(FourBits(Xor(r, Wide(b))))
  }

  function Serial(r: bv16, message: seq<bv8>): bv16
  {
    if message == [] then r else ByteStep(Serial(r, message[..|message| - 1]), message[|message| - 1])
  }

  // ---------- The table ----------

  function Row0(n: bv16): bv16
  {
    if n == 0 then 0x0000 else if n == 1 then 0x1189 else if n == 2 then 0x2312 else if n == 3 then 0x329b
    else if n == 4 then 0x4624 else if n == 5 then 0x57ad else if n == 6 then 0x6536 else if n == 7 then 0x74bf
    else if n == 8 then 0x8c48 else if n == 9 then 0x9dc1 else if n == 10 then 0xaf5a else if n == 11 then 0xbed3
    else if n == 12 then 0xca6c else if n == 13 then 0xdbe5 else if n == 14 then 0xe97e else 0xf8f7
  }

  function Row1(n: bv16): bv16
  {
    if n == 0 then 0x1081 else if n == 1 then 0x0108 else if n == 2 then 0x3393 else if n == 3 then 0x221a
    else if n == 4 then 0x56a5 else if n == 5 then 0x472c else if n == 6 then 0x75b7 else if n == 7 then 0x643e
    else if n == 8 then 0x9cc9 else if n == 9 then 0x8d40 else if n == 10 then 0xbfdb else if n == 11 then 0xae52
    else if n == 12 then 0xdaed else if n == 13 then 0xcb64 else if n == 14 then 0xf9ff else 0xe876
  }

  function Row2(n: bv16): bv16
  {
    if n == 0 then 0x2102 else if n == 1 then 0x308b else if n == 2 then 0x0210 else if n == 3 then 0x1399
    else if n == 4 then 0x6726 else if n == 5 then 0x76af else if n == 6 then 0x4434 else if n == 7 then 0x55bd
    else if n == 8 then 0xad4a else if n == 9 then 0xbcc3 else if n == 10 then 0x8e58 else if n == 11 then 0x9fd1
    else if n == 12 then 0xeb6e else if n == 13 then 0xfae7 else if n == 14 then 0xc87c else 0xd9f5
  }

  function Row3(n: bv16): bv16
  {
    if n == 0 then 0x3183 else if n == 1 then 0x200a else if n == 2 then 0x1291 else if n == 3 then 0x0318
    else if n == 4 then 0x77a7 else if n == 5 then 0x662e else if n == 6 then 0x54b5 else if n == 7 then 0x453c
    else if n == 8 then 0xbdcb else if n == 9 then 0xac42 else if n == 10 then 0x9ed9 else if n == 11 then 0x8f50
    else if n == 12 then 0xfbef else if n == 13 then 0xea66 else if n == 14 then 0xd8fd else 0xc974
  }

  function Row4(n: bv16): bv16
  {
    if n == 0 then 0x4204 else if n == 1 then 0x538d else if n == 2 then 0x6116 else if n == 3 then 0x709f
    else if n == 4 then 0x0420 else if n == 5 then 0x15a9 else if n == 6 then 0x2732 else if n == 7 then 0x36bb
    else if n == 8 then 0xce4c else if n == 9 then 0xdfc5 else if n == 10 then 0xed5e else if n == 11 then 0xfcd7
    else if n == 12 then 0x8868 else if n == 13 then 0x99e1 else if n == 14 then 0xab7a else 0xbaf3
  }

  function Row5(n: bv16): bv16
  {
    if n == 0 then 0x5285 else if n == 1 then 0x430c else if n == 2 then 0x7197 else if n == 3 then 0x601e
    else if n == 4 then 0x14a1 else if n == 5 then 0x0528 else if n == 6 then 0x37b3 else if n == 7 then 0x263a
    else if n == 8 then 0xdecd else if n == 9 then 0xcf44 else if n == 10 then 0xfddf else if n == 11 then 0xec56
    else if n == 12 then 0x98e9 else if n == 13 then 0x8960 else if n == 14 then 0xbbfb else 0xaa72
  }

  function Row6(n: bv16): bv16
  {
    if n == 0 then 0x6306 else if n == 1 then 0x728f else if n == 2 then 0x4014 else if n == 3 then 0x519d
    else if n == 4 then 0x2522 else if n == 5 then 0x34ab else if n == 6 then 0x0630 else if n == 7 then 0x17b9
    else if n == 8 then 0xef4e else if n == 9 then 0xfec7 else if n == 10 then 0xcc5c else if n == 11 then 0xddd5
    else if n == 12 then 0xa96a else if n == 13 then 0xb8e3 else if n == 14 then 0x8a78 else 0x9bf1
  }

  function Row7(n: bv16): bv16
  {
    if n == 0 then 0x7387 else if n == 1 then 0x620e else if n == 2 then 0x5095 else if n == 3 then 0x411c
    else if n == 4 then 0x35a3 else if n == 5 then 0x242a else if n == 6 then 0x16b1 else if n == 7 then 0x0738
    else if n == 8 then 0xffcf else if n == 9 then 0xee46 else if n == 10 then 0xdcdd else if n == 11 then 0xcd54
    else if n == 12 then 0xb9eb else if n == 13 then 0xa862 else if n == 14 then 0x9af9 else 0x8b70
  }

  function Row8(n: bv16): bv16
  {
    if n == 0 then 0x8408 else if n == 1 then 0x9581 else if n == 2 then 0xa71a else if n == 3 then 0xb693
    else if n == 4 then 0xc22c else if n == 5 then 0xd3a5 else if n == 6 then 0xe13e else if n == 7 then 0xf0b7
    else if n == 8 then 0x0840 else if n == 9 then 0x19c9 else if n == 10 then 0x2b52 else if n == 11 then 0x3adb
    else if n == 12 then 0x4e64 else if n == 13 then 0x5fed else if n == 14 then 0x6d76 else 0x7cff
  }

  function Row9(n: bv16): bv16
  {
    if n == 0 then 0x9489 else if n == 1 then 0x8500 else if n == 2 then 0xb79b else if n == 3 then 0xa612
    else if n == 4 then 0xd2ad else if n == 5 then 0xc324 else if n == 6 then 0xf1bf else if n == 7 then 0xe036
    else if n == 8 then 0x18c1 else if n == 9 then 0x0948 else if n == 10 then 0x3bd3 else if n == 11 then 0x2a5a
    else if n == 12 then 0x5ee5 else if n == 13 then 0x4f6c else if n == 14 then 0x7df7 else 0x6c7e
  }

  function RowA(n: bv16): bv16
  {
    if n == 0 then 0xa50a else if n == 1 then 0xb483 else if n == 2 then 0x8618 else if n == 3 then 0x9791
    else if n == 4 then 0xe32e else if n == 5 then 0xf2a7 else if n == 6 then 0xc03c else if n == 7 then 0xd1b5
    else if n == 8 then 0x2942 else if n == 9 then 0x38cb else if n == 10 then 0x0a50 else if n == 11 then 0x1bd9
    else if n == 12 then 0x6f66 else if n == 13 then 0x7eef else if n == 14 then 0x4c74 else 0x5dfd
  }

  function RowB(n: bv16): bv16
  {
    if n == 0 then 0xb58b else if n == 1 then 0xa402 else if n == 2 then 0x9699 else if n == 3 then 0x8710
    else if n == 4 then 0xf3af else if n == 5 then 0xe226 else if n == 6 then 0xd0bd else if n == 7 then 0xc134
    else if n == 8 then 0x39c3 else if n == 9 then 0x284a else if n == 10 then 0x1ad1 else if n == 11 then 0x0b58
    else if n == 12 then 0x7fe7 else if n == 13 then 0x6e6e else if n == 14 then 0x5cf5 else 0x4d7c
  }

  function RowC(n: bv16): bv16
  {
    if n == 0 then 0xc60c else if n == 1 then 0xd785 else if n == 2 then 0xe51e else if n == 3 then 0xf497
    else if n == 4 then 0x8028 else if n == 5 then 0x91a1 else if n == 6 then 0xa33a else if n == 7 then 0xb2b3
    else if n == 8 then 0x4a44 else if n == 9 then 0x5bcd else if n == 10 then 0x6956 else if n == 11 then 0x78df
    else if n == 12 then 0x0c60 else if n == 13 then 0x1de9 else if n == 14 then 0x2f72 else 0x3efb
  }

  function RowD(n: bv16): bv16
  {
    if n == 0 then 0xd68d else if n == 1 then 0xc704 else if n == 2 then 0xf59f else if n == 3 then 0xe416
    else if n == 4 then 0x90a9 else if n == 5 then 0x8120 else if n == 6 then 0xb3bb else if n == 7 then 0xa232
    else if n == 8 then 0x5ac5 else if n == 9 then 0x4b4c else if n == 10 then 0x79d7 else if n == 11 then 0x685e
    else if n == 12 then 0x1ce1 else if n == 13 then 0x0d68 else if n == 14 then 0x3ff3 else 0x2e7a
  }

  function RowE(n: bv16): bv16
  {
    if n == 0 then 0xe70e else if n == 1 then 0xf687 else if n == 2 then 0xc41c else if n == 3 then 0xd595
    else if n == 4 then 0xa12a else if n == 5 then 0xb0a3 else if n == 6 then 0x8238 else if n == 7 then 0x93b1
    else if n == 8 then 0x6b46 else if n == 9 then 0x7acf else if n == 10 then 0x4854 else if n == 11 then 0x59dd
    else if n == 12 then 0x2d62 else if n == 13 then 0x3ceb else if n == 14 then 0x0e70 else 0x1ff9
  }

  function RowF(n: bv16): bv16
  {
    if n == 0 then 0xf78f else if n == 1 then 0xe606 else if n == 2 then 0xd49d else if n == 3 then 0xc514
    else if n == 4 then 0xb1ab else if n == 5 then 0xa022 else if n == 6 then 0x92b9 else if n == 7 then 0x8330
    else if n == 8 then 0x7bc7 else if n == 9 then 0x6a4e else if n == 10 then 0x58d5 else if n == 11 then 0x495c
    else if n == 12 then 0x3de3 else if n == 13 then 0x2c6a else if n == 14 then 0x1ef1 else 0x0f78
  }

  function Table(i: bv16): bv16
  {
    var row, n := i >> 4, i & 0xf;
    if row == 0 then Row0(n)
    else if row == 1 then Row1(n)
    else if row == 2 then Row2(n)
    else if row == 3 then Row3(n)
    else if row == 4 then Row4(n)
    else if row == 5 then Row5(n)
    else if row == 6 then Row6(n)
    else if row == 7 then Row7(n)
    else if row == 8 then Row8(n)
    else if row == 9 then Row9(n)
    else if row == 10 then RowA(n)
    else if row == 11 then RowB(n)
    else if row == 12 then RowC(n)
    else if row == 13 then RowD(n)
    else if row == 14 then RowE(n)
    else RowF(n)
  }

  lemma Row0Is(n: bv16)
    requires n < 16
    ensures Row0(n) == FourBits(FourBits(0x00 | n))
    ensures n == 0 || Row0(n) >= 0x100
  {
  }

  lemma Row1Is(n: bv16)
    requires n < 16
    ensures Row1(n) == FourBits(FourBits(0x10 | n))
    ensures Row1(n) >= 0x100
  {
  }

  lemma Row2Is(n: bv16)
    requires n < 16
    ensures Row2(n) == FourBits(FourBits(0x20 | n))
    ensures Row2(n) >= 0x100
  {
  }

  lemma Row3Is(n: bv16)
    requires n < 16
    ensures Row3(n) == FourBits(FourBits(0x30 | n))
    ensures Row3(n) >= 0x100
  {
  }

  lemma Row4Is(n: bv16)
    requires n < 16
    ensures Row4(n) == FourBits(FourBits(0x40 | n))
    ensures Row4(n) >= 0x100
  {
  }

  lemma Row5Is(n: bv16)
    requires n < 16
    ensures Row5(n) == FourBits(FourBits(0x50 | n))
    ensures Row5(n) >= 0x100
  {
  }

  lemma Row6Is(n: bv16)
    requires n < 16
    ensures Row6(n) == FourBits(FourBits(0x60 | n))
    ensures Row6(n) >= 0x100
  {
  }

  lemma Row7Is(n: bv16)
    requires n < 16
    ensures Row7(n) == FourBits(FourBits(0x70 | n))
    ensures Row7(n) >= 0x100
  {
  }

  lemma Row8Is(n: bv16)
    requires n < 16
    ensures Row8(n) == FourBits(FourBits(0x80 | n))
    ensures Row8(n) >= 0x100
  {
  }

  lemma Row9Is(n: bv16)
    requires n < 16
    ensures Row9(n) == FourBits(FourBits(0x90 | n))
    ensures Row9(n) >= 0x100
  {
  }

  lemma RowAIs(n: bv16)
    requires n < 16
    ensures RowA(n) == FourBits(FourBits(0xa0 | n))
    ensures RowA(n) >= 0x100
  {
  }

  lemma RowBIs(n: bv16)
    requires n < 16
    ensures RowB(n) == FourBits(FourBits(0xb0 | n))
    ensures RowB(n) >= 0x100
  {
  }

  lemma RowCIs(n: bv16)
    requires n < 16
    ensures RowC(n) == FourBits(FourBits(0xc0 | n))
    ensures RowC(n) >= 0x100
  {
  }

  lemma RowDIs(n: bv16)
    requires n < 16
    ensures RowD(n) == FourBits(FourBits(0xd0 | n))
    ensures RowD(n) >= 0x100
  {
  }

  lemma RowEIs(n: bv16)
    requires n < 16
    ensures RowE(n) == FourBits(FourBits(0xe0 | n))
    ensures RowE(n) >= 0x100
  {
  }

  lemma RowFIs(n: bv16)
    requires n < 16
    ensures RowF(n) == FourBits(FourBits(0xf0 | n))
    ensures RowF(n) >= 0x100
  {
  }


  lemma RowSplit(i: bv16)
    requires i < 256
    ensures ((i >> 4) << 4) | (i & 0xf) == i && i & 0xf < 16 && i >> 4 < 16
  {
  }

  /** Every entry of the table is the register after eight bits. */
  lemma TableIs(i: bv16)
    requires i < 256
    ensures Table(i) == FourBits(FourBits(i)) && (i == 0 || Table(i) >= 0x100)
  {
    hide FourBits, Row0, Row1, Row2, Row3, Row4, Row5, Row6, Row7, Row8, Row9, RowA, RowB, RowC, RowD, RowE, RowF;
    RowSplit(i);
    var row, n := i >> 4, i & 0xf;
    if row == 0 {
      Row0Is(n);
    } else if row == 1 {
      Row1Is(n);
    } else if row == 2 {
      Row2Is(n);
    } else if row == 3 {
      Row3Is(n);
    } else if row == 4 {
      Row4Is(n);
    } else if row == 5 {
      Row5Is(n);
    } else if row == 6 {
      Row6Is(n);
    } else if row == 7 {
      Row7Is(n);
    } else if row == 8 {
      Row8Is(n);
    } else if row == 9 {
      Row9Is(n);
    } else if row == 10 {
      RowAIs(n);
    } else if row == 11 {
      RowBIs(n);
    } else if row == 12 {
      RowCIs(n);
    } else if row == 13 {
      RowDIs(n);
    } else if row == 14 {
      RowEIs(n);
    } else {
      RowFIs(n);
    }
  }

  lemma LowBit(x: bv16)
    ensures x & 1 == 0 || x & 1 == 1
  {
  }

  lemma XorOfEven(x: bv16, y: bv16)
    requires x & 1 == 0 && y & 1 == 0
    ensures (x ^ y) & 1 == 0 && (x ^ y) >> 1 == (x >> 1) ^ (y >> 1)
  {
  }

  lemma XorOfOddAndEven(x: bv16, y: bv16)
    requires x & 1 == 1 && y & 1 == 0
    ensures (x ^ y) & 1 == 1 && ((x ^ y) >> 1) ^ POLYNOMIAL == ((x >> 1) ^ POLYNOMIAL) ^ (y >> 1)
  {
  }

  lemma XorOfOdd(x: bv16, y: bv16)
    requires x & 1 == 1 && y & 1 == 1
    ensures (x ^ y) & 1 == 0 && (x ^ y) >> 1 == ((x >> 1) ^ POLYNOMIAL) ^ ((y >> 1) ^ POLYNOMIAL)
  {
  }

  lemma XorSwaps(x: bv16, y: bv16)
    ensures x ^ y == y ^ x
  {
  }

  lemma BitStepSum(x: bv16, y: bv16)
    ensures BitStep(x ^ y) == BitStep(x) ^ BitStep(y)
  {
    LowBit(x);
    LowBit(y);
    if x & 1 == 0 {
      if y & 1 == 0 {
        XorOfEven(x, y);
      } else {
        XorSwaps(x, y);
        XorOfOddAndEven(y, x);
        XorSwaps(BitStep(x), BitStep(y));
      }
    } else if y & 1 == 0 {
      XorOfOddAndEven(x, y);
    } else {
      XorOfOdd(x, y);
    }
  }

  /** The steps are linear. */
  lemma BitStepXor(x: bv16, y: bv16)
    ensures BitStep(Xor(x, y)) == Xor(BitStep(x), BitStep(y))
  {
    hide BitStep;
    BitStepSum(x, y);
  }

  lemma FourBitsXor(x: bv16, y: bv16)
    ensures FourBits(Xor(x, y)) == Xor(FourBits(x), FourBits(y))
  {
    hide BitStep, Xor;
    BitStepXor(x, y);
    BitStepXor(BitStep(x), BitStep(y));
    BitStepXor(BitStep(BitStep(x)), BitStep(BitStep(y)));
    BitStepXor(BitStep(BitStep(BitStep(x))), BitStep(BitStep(BitStep(y))));
  }

  lemma EightBitsXor(x: bv16, y: bv16)
    ensures FourBits(FourBits(Xor(x, y))) == Xor(FourBits(FourBits(x)), FourBits(FourBits(y)))
  {
    hide FourBits, Xor;
    FourBitsXor(x, y);
    FourBitsXor(FourBits(x), FourBits(y));
  }

  lemma EvenStep(y: bv16)
    requires y & 1 == 0
    ensures BitStep(y) == y >> 1
  {
  }

  lemma FourShifts(y: bv16)
    requires y & 0xf == 0
    ensures y & 1 == 0 && (y >> 1) & 1 == 0 && ((y >> 1) >> 1) & 1 == 0 && (((y >> 1) >> 1) >> 1) & 1 == 0
    ensures (((y >> 1) >> 1) >> 1) >> 1 == y >> 4
  {
  }

  lemma FourZeros(y: bv16)
    requires y & 0xf == 0
    ensures FourBits(y) == y >> 4
  {
    hide BitStep;
    FourShifts(y);
    EvenStep(y);
    EvenStep(y >> 1);
    EvenStep((y >> 1) >> 1);
    EvenStep(((y >> 1) >> 1) >> 1);
  }

  lemma TwoBytes(r: bv16)
    ensures r == (r & 0xff) ^ (r & 0xff00) && (r & 0xff00) & 0xf == 0
    ensures ((r & 0xff00) >> 4) & 0xf == 0 && ((r & 0xff00) >> 4) >> 4 == r >> 8
  {
  }

  lemma SumOfBytes(r: bv16)
    ensures r == Xor(r & 0xff, r & 0xff00)
  {
    TwoBytes(r);
  }

  /** The high byte only shifts: eight bits at once can be done by a table of the low byte. */
  lemma HighByteShifts(r: bv16)
    ensures FourBits(FourBits(r)) == Xor(FourBits(FourBits(r & 0xff)), r >> 8)
  {
    hide FourBits, Xor;
    var high := r & 0xff00;
    TwoBytes(r);
    SumOfBytes(r);
    EightBitsXor(r & 0xff, high);
    FourZeros(high);
    FourZeros(high >> 4);
  }

  /** One byte by table. */
  function TableByte(r: bv16, b: bv8): bv16
  {
    Xor(Table(Xor(r, Wide(b)) & 0xff), r >> 8)
  }

  lemma ByteOnly(r: bv16, b: bv8)
    ensures (r ^ (b as bv16)) >> 8 == r >> 8 && (r ^ (b as bv16)) & 0xff < 256
  {
  }

  lemma XorKeepsTop(r: bv16, b: bv8)
    ensures Xor(r, Wide(b)) >> 8 == r >> 8 && Xor(r, Wide(b)) & 0xff < 256
  {
    ByteOnly(r, b);
  }

  /** One byte by table is eight bits one at a time. */
  lemma TableStep(r: bv16, b: bv8)
    ensures TableByte(r, b) == ByteStep(r, b)
  {
    hide FourBits, Table, Xor, Wide;
    XorKeepsTop(r, b);
    TableIs(Xor(r, Wide(b)) & 0xff);
    HighByteShifts(Xor(r, Wide(b)));
  }

  /** crc_16_l_calc for a whole number of bytes. */
  method Crc16LCalc(buf: seq<bv8>) returns (crc: bv16)
    ensures crc == !Serial(SEED, buf)
  {
    hide TableByte, ByteStep;
    var r := SEED;
    var i := 0;
    assert buf[..0] == [];
    while i < |buf|
      invariant i <= |buf| && r == Serial(SEED, buf[..i])
    {
      TableStep(r, buf[i]);
      SerialOneMore(SEED, buf, i);
      r := TableByte(r, buf[i]);
      i := i + 1;
    }
    assert buf[..i] == buf;
    return !r;
  }

  lemma SerialOneMore(r: bv16, message: seq<bv8>, i: nat)
    requires i < |message|
    ensures Serial(r, message[..i + 1]) == ByteStep(Serial(r, message[..i]), message[i])
  {
    assert message[..i + 1][..i] == message[..i];
  }

  // ---------- What the two bytes at the end are for ----------

  function LowByte(crc: bv16): bv8
  {
    (crc & 0xff) as bv8
  }

  function HighByte(crc: bv16): bv8
  {
    (crc >> 8) as bv8
  }

  lemma NoStepToZero(x: bv16)
    ensures BitStep(x) == 0 ==> x == 0
  {
  }

  lemma XorZero(x: bv16, y: bv16)
    ensures Xor(x, y) == 0 <==> x == y
  {
    hide Xor;
    XorTwice(x, y);
    XorSelf(y);
    if Xor(x, y) == 0 {
      assert Xor(0, y) == x;
    }
  }

  lemma XorSelf(y: bv16)
    ensures Xor(y, y) == 0 && Xor(0, y) == y
  {
  }

  lemma BitStepInjective(x: bv16, y: bv16)
    requires BitStep(x) == BitStep(y)
    ensures x == y
  {
    hide BitStep, Xor;
    BitStepXor(x, y);
    XorZero(BitStep(x), BitStep(y));
    NoStepToZero(Xor(x, y));
    XorZero(x, y);
  }

  lemma EightBitsInjective(x: bv16, y: bv16)
    requires FourBits(FourBits(x)) == FourBits(FourBits(y))
    ensures x == y
  {
    hide FourBits;
    FourBitsInjective(FourBits(x), FourBits(y));
    FourBitsInjective(x, y);
  }

  lemma FourBitsInjective(x: bv16, y: bv16)
    requires FourBits(x) == FourBits(y)
    ensures x == y
  {
    hide BitStep;
    BitStepInjective(BitStep(BitStep(BitStep(x))), BitStep(BitStep(BitStep(y))));
    BitStepInjective(BitStep(BitStep(x)), BitStep(BitStep(y)));
    BitStepInjective(BitStep(x), BitStep(y));
    BitStepInjective(x, y);
  }

  lemma XorCancels(x: bv16, y: bv16, z: bv16)
    ensures Xor(x, z) == Xor(y, z) <==> x == y
    ensures Xor(z, x) == Xor(z, y) <==> x == y
  {
  }

  lemma WideInjective(x: bv8, y: bv8)
    ensures Wide(x) == Wide(y) ==> x == y
  {
  }

  /** Neither another register nor another byte leads to the same register. */
  lemma ByteStepInjective(r: bv16, s: bv16, x: bv8, y: bv8)
    ensures ByteStep(r, x) == ByteStep(s, x) ==> r == s
    ensures ByteStep(r, x) == ByteStep(r, y) ==> x == y
  {
    hide FourBits, Xor, Wide;
    if ByteStep(r, x) == ByteStep(s, x) {
      EightBitsInjective(Xor(r, Wide(x)), Xor(s, Wide(x)));
      XorCancels(r, s, Wide(x));
    }
    if ByteStep(r, x) == ByteStep(r, y) {
      EightBitsInjective(Xor(r, Wide(x)), Xor(r, Wide(y)));
      XorCancels(Wide(x), Wide(y), r);
      WideInjective(x, y);
    }
  }

  /** Messages that differ in exactly one byte have different checksums. */
  lemma {:induction false} ChangedByteIsNoticed(r: bv16, a: seq<bv8>, b: seq<bv8>, i: nat)
    requires i < |a| == |b| && a[i] != b[i] && forall j :: 0 <= j < |a| && j != i ==> a[j] == b[j]
    ensures Serial(r, a) != Serial(r, b)
    decreases |a|
  {
    hide ByteStep;
    var n := |a| - 1;
    if i == n {
      assert a[..n] == b[..n];
      ByteStepInjective(Serial(r, a[..n]), Serial(r, a[..n]), a[n], b[n]);
    } else {
      ChangedByteIsNoticed(r, a[..n], b[..n], i);
      ByteStepInjective(Serial(r, a[..n]), Serial(r, b[..n]), a[n], b[n]);
    }
  }

  lemma ComplementMeetsLow(r: bv16)
    ensures Xor(r, Wide(LowByte(!r))) == Xor(0xff, r & 0xff00)
  {
  }

  lemma ComplementMeetsHigh(r: bv16)
    ensures Xor(Xor(0x0f78, r >> 8), Wide(HighByte(!r))) == 0x0f87
  {
  }

  lemma StepsOfConstants()
    ensures FourBits(FourBits(0xff)) == 0x0f78 && FourBits(FourBits(0x0f87)) == RESIDUE
  {
  }

  /** Whatever the register, the two bytes of its complement lead to the residue. */
  lemma ComplementLeadsToResidue(r: bv16)
    ensures ByteStep(ByteStep(r, LowByte(!r)), HighByte(!r)) == RESIDUE
  {
    hide FourBits, Xor, Wide, LowByte, HighByte;
    ComplementMeetsLow(r);
    StepsOfConstants();
    TwoBytes(r);
    EightBitsXor(0xff, r & 0xff00);
    FourZeros(r & 0xff00);
    FourZeros((r & 0xff00) >> 4);
    ComplementMeetsHigh(r);
  }

  lemma XorTwice(a: bv16, y: bv16)
    ensures Xor(Xor(a, y), y) == a
  {
  }

  lemma CommonCancels(c: bv16, y: bv16, h: bv16, p: bv16, q: bv16)
    requires p == c ^ y && q == c ^ h
    ensures p ^ q == y ^ h
  {
  }

  lemma XorCommon(c: bv16, y: bv16, h: bv16)
    ensures Xor(Xor(c, y), Xor(c, h)) == Xor(y, h)
  {
    CommonCancels(c, y, h, Xor(c, y), Xor(c, h));
  }

  lemma XorPairs(a: bv16, b: bv16, y: bv16, h: bv16)
    ensures Xor(a, y) == Xor(b, h) ==> Xor(a, b) == Xor(y, h)
  {
    hide Xor;
    XorTwice(a, y);
    XorTwice(b, h);
    XorCommon(Xor(a, y), y, h);
  }

  lemma XorOfSums(r: bv16, x: bv8, l: bv8)
    ensures Xor(Xor(r, Wide(x)), Xor(r, Wide(l))) == Xor(Wide(x), Wide(l)) < 0x100
  {
    XorCommon(r, Wide(x), Wide(l));
  }

  /** The checksum of a message with two more bytes leaves the residue exactly when these are the bytes
      compute_reply_crc appends, low byte first. */
  lemma ResidueIff(message: seq<bv8>, x: bv8, y: bv8)
    ensures Serial(SEED, message + [x, y]) == RESIDUE
       <==> x == LowByte(!Serial(SEED, message)) && y == HighByte(!Serial(SEED, message))
  {
    hide ByteStep, LowByte, HighByte, Serial;
    var r := Serial(SEED, message);
    SerialTwoMore(SEED, message, x, y);
    ComplementLeadsToResidue(r);
    if ByteStep(ByteStep(r, x), y) == RESIDUE {
      OnlyComplement(r, x, y);
    }
  }

  lemma SerialTwoMore(r: bv16, message: seq<bv8>, x: bv8, y: bv8)
    ensures Serial(r, message + [x, y]) == ByteStep(ByteStep(Serial(r, message), x), y)
  {
    hide ByteStep, Serial;
    var n, m := |message|, message + [x, y];
    SerialOneMore(r, m, n);
    SerialOneMore(r, m, n + 1);
    assert m[..n] == message && m[..n + 2] == m;
  }

  lemma OnlyComplement(r: bv16, x: bv8, y: bv8)
    requires ByteStep(ByteStep(r, x), y) == RESIDUE
    ensures x == LowByte(!r) && y == HighByte(!r)
  {
    hide FourBits, Xor, Wide, LowByte, HighByte, Table;
    var low, high := LowByte(!r), HighByte(!r);
    ComplementLeadsToResidue(r);
    var s1, s2 := ByteStep(r, x), ByteStep(r, low);
    EightBitsInjective(Xor(s1, Wide(y)), Xor(s2, Wide(high)));
    XorPairs(s1, s2, Wide(y), Wide(high));
    EightBitsXor(Xor(r, Wide(x)), Xor(r, Wide(low)));
    XorOfSums(r, x, low);
    XorOfSums(r, y, high);
    TableIs(Xor(Wide(x), Wide(low)));
    XorZero(Wide(x), Wide(low));
    WideInjective(x, low);
    ByteStepInjective(s1, s1, y, high);
  }

  // ---------- What the register starts from ----------

  lemma {:induction false} SerialConcat(r: bv16, a: seq<bv8>, b: seq<bv8>)
    ensures Serial(r, a + b) == Serial(Serial(r, a), b)
    decreases |b|
  {
    hide ByteStep;
    if b == [] {
      assert a + b == a;
    } else {
      var front := b[..|b| - 1];
      assert (a + b)[..|a + b| - 1] == a + front;
      SerialConcat(r, a, front);
    }
  }

  /** The two registers that are the same eight shifts later. */
  lemma FixedByShifts(r: bv16)
    ensures FourBits(FourBits(r)) == r <==> r == 0 || r == 0xf80f
  {
  }

  lemma {:induction false} SerialInjective(r: bv16, s: bv16, message: seq<bv8>)
    requires Serial(r, message) == Serial(s, message)
    ensures r == s
    decreases |message|
  {
    hide ByteStep;
    if message != [] {
      var front, last := message[..|message| - 1], message[|message| - 1];
      ByteStepInjective(Serial(r, front), Serial(s, front), last, last);
      SerialInjective(r, s, front);
    }
  }

  /** A zero byte in front of a message goes unnoticed exactly if the register starts from 0 or from 0xf80f. */
  lemma LeadingZeroUnnoticedIff(r: bv16, message: seq<bv8>)
    ensures Serial(r, [0] + message) == Serial(r, message) <==> r == 0 || r == 0xf80f
  {
    hide FourBits, Serial;
    SerialConcat(r, [0], message);
    OneByte(r, 0);
    FixedByShifts(r);
    XorZeroByte(r);
    if Serial(r, [0] + message) == Serial(r, message) {
      SerialInjective(ByteStep(r, 0), r, message);
    }
  }

  lemma XorZeroByte(r: bv16)
    ensures Xor(r, Wide(0)) == r
  {
  }

  lemma OneByte(r: bv16, b: bv8)
    ensures Serial(r, [b]) == ByteStep(r, b)
  {
    hide ByteStep;
    assert [b][..0] == [];
  }

  /** This one starts from all ones. */
  lemma LeadingZeroIsNoticed(message: seq<bv8>)
    ensures Serial(SEED, [0] + message) != Serial(SEED, message)
  {
    hide Serial;
    LeadingZeroUnnoticedIff(SEED, message);
  }

  lemma CheckSteps1()
    ensures ByteStep(0xffff, 0x31) == 0x2f8d && ByteStep(0x2f8d, 0x32) == 0x4d53 && ByteStep(0x4d53, 0x33) == 0x634b
  {
  }

  lemma CheckSteps2()
    ensures ByteStep(0x634b, 0x34) == 0x8b13 && ByteStep(0x8b13, 0x35) == 0x44bf && ByteStep(0x44bf, 0x36) == 0x198d
  {
  }

  lemma CheckSteps3()
    ensures ByteStep(0x198d, 0x37) == 0x1ac8 && ByteStep(0x1ac8, 0x38) == 0xf795 && ByteStep(0xf795, 0x39) == 0x6f91
  {
  }

  /** The check value of the checksum: that of the nine digits from 1 to 9. */
  lemma CheckValue()
    ensures !Serial(SEED, [0x31, 0x32, 0x33, 0x34, 0x35, 0x36, 0x37, 0x38, 0x39]) == 0x906e
  {
    hide ByteStep;
    var m := [0x31, 0x32, 0x33, 0x34, 0x35, 0x36, 0x37, 0x38, 0x39];
    CheckSteps1();
    CheckSteps2();
    CheckSteps3();
    assert Serial(SEED, m[..0]) == SEED;
    SerialOneMore(SEED, m, 0);
    SerialOneMore(SEED, m, 1);
    SerialOneMore(SEED, m, 2);
    SerialOneMore(SEED, m, 3);
    SerialOneMore(SEED, m, 4);
    SerialOneMore(SEED, m, 5);
    SerialOneMore(SEED, m, 6);
    SerialOneMore(SEED, m, 7);
    SerialOneMore(SEED, m, 8);
    assert m[..9] == m;
  }
}
