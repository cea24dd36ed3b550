/** A digest from the test suite of RFC 1321 (appendix A.5), and what it rests on. Its message fills all sixteen words
    of the first block, so that every word, shift and sine of the algorithm takes part in it. */
module Md5Vector {
  import opened Md5
  import opened Md5Block

  // ---------- Words as bytes ----------

  /** A word is written low-order byte first and read as it was written. */
  lemma WordReadBack(w: bv32, rest: seq<bv8>)
    ensures WordAt(WordBytes(w) + rest, 0) == w
  {
    WordFromBytes(w);
    assert WordBytes(w) + rest == [(w & 0xff) as bv8, ((w >> 8) & 0xff) as bv8, ((w >> 16) & 0xff) as bv8,
                                   (w >> 24) as bv8] + rest;
  }

  lemma WordFromBytes(w: bv32)
    ensures ((w & 0xff) as bv8 as bv32) | (((w >> 8) & 0xff) as bv8 as bv32 << 8)
            | (((w >> 16) & 0xff) as bv8 as bv32 << 16) | ((w >> 24) as bv8 as bv32 << 24) == w
  {
  }

  /** The words at the start, low-order byte first, are those of section 3.3. */
  lemma BeginBytes()
    ensures DigestBytes(BEGIN) == [0x01, 0x23, 0x45, 0x67, 0x89, 0xab, 0xcd, 0xef,
                                   0xfe, 0xdc, 0xba, 0x98, 0x76, 0x54, 0x32, 0x10]
  {
  }

  // ---------- The message ----------

  const ROW1: seq<bv8> :=
    [0x41, 0x42, 0x43, 0x44, 0x45, 0x46, 0x47, 0x48, 0x49, 0x4a, 0x4b, 0x4c, 0x4d, 0x4e, 0x4f, 0x50]

  const ROW2: seq<bv8> :=
    [0x51, 0x52, 0x53, 0x54, 0x55, 0x56, 0x57, 0x58, 0x59, 0x5a, 0x61, 0x62, 0x63, 0x64, 0x65, 0x66]

  const ROW3: seq<bv8> :=
    [0x67, 0x68, 0x69, 0x6a, 0x6b, 0x6c, 0x6d, 0x6e, 0x6f, 0x70, 0x71, 0x72, 0x73, 0x74, 0x75, 0x76]

  const ROW4: seq<bv8> :=
    [0x77, 0x78, 0x79, 0x7a, 0x30, 0x31, 0x32, 0x33, 0x34, 0x35, 0x36, 0x37, 0x38, 0x39]

  /** The letters from A to Z, from a to z, and the digits from 0 to 9. */
  const MESSAGE: seq<bv8> := ROW1 + ROW2 + ROW3 + ROW4

  /** The two blocks of the padded message, as words. */
  const FIRST: seq<bv32> :=
    [0x44434241, 0x48474645, 0x4c4b4a49, 0x504f4e4d, 0x54535251, 0x58575655, 0x62615a59, 0x66656463,
     0x6a696867, 0x6e6d6c6b, 0x7271706f, 0x76757473, 0x7a797877, 0x33323130, 0x37363534, 0x00803938]

  const SECOND: seq<bv32> :=
    [0x00000000, 0x00000000, 0x00000000, 0x00000000, 0x00000000, 0x00000000, 0x00000000, 0x00000000,
     0x00000000, 0x00000000, 0x00000000, 0x00000000, 0x00000000, 0x00000000, 0x000001f0, 0x00000000]

  /** The words after the first block. */
  const BETWEEN: Words := Words(0x83fd320b, 0xdefbe5cf, 0xa9b1642f, 0xfa6f932a)

  lemma FirstIs()
    ensures |FIRST| == 16
    ensures FIRST[0] == 0x44434241 && FIRST[1] == 0x48474645 && FIRST[2] == 0x4c4b4a49 && FIRST[3] == 0x504f4e4d
    ensures FIRST[4] == 0x54535251 && FIRST[5] == 0x58575655 && FIRST[6] == 0x62615a59 && FIRST[7] == 0x66656463
    ensures FIRST[8] == 0x6a696867 && FIRST[9] == 0x6e6d6c6b && FIRST[10] == 0x7271706f && FIRST[11] == 0x76757473
    ensures FIRST[12] == 0x7a797877 && FIRST[13] == 0x33323130 && FIRST[14] == 0x37363534 && FIRST[15] == 0x00803938
  {
  }

  lemma SecondIs()
    ensures |SECOND| == 16
    ensures SECOND[0] == 0x00000000 && SECOND[1] == 0x00000000 && SECOND[2] == 0x00000000 && SECOND[3] == 0x00000000
    ensures SECOND[4] == 0x00000000 && SECOND[5] == 0x00000000 && SECOND[6] == 0x00000000 && SECOND[7] == 0x00000000
    ensures SECOND[8] == 0x00000000 && SECOND[9] == 0x00000000 && SECOND[10] == 0x00000000 && SECOND[11] == 0x00000000
    ensures SECOND[12] == 0x00000000 && SECOND[13] == 0x00000000 && SECOND[14] == 0x000001f0 && SECOND[15] == 0x00000000
  {
  }

  lemma NoOperations(w: Words, x: seq<bv32>)
    requires |x| == 16
    ensures Operations(w, x, 0) == w
  {
  }

  // ---------- One operation, by its round ----------

  lemma OperationF(v: Words, x: seq<bv32>, i: nat, a: bv32, b: bv32, c: bv32, d: bv32, k: nat, m: bv32, t: bv32,
        s: nat, r: bv32)
    requires |x| == 16 && k < 16 && s <= 32 && Constants(i, k, t, s) && x[k] == m && 0 <= i < 16
    requires Operations(v, x, i) == Words(a, b, c, d) && Add(b, RotateLeft(Sum(a, F(b, c, d), m, t), s)) == r
    ensures Operations(v, x, i + 1) == Words(d, r, b, c)
  {
    hide Add, RotateLeft, Sum, F, G, H, I, WordOf, SineOf, ShiftOf;
  }

  lemma OperationG(v: Words, x: seq<bv32>, i: nat, a: bv32, b: bv32, c: bv32, d: bv32, k: nat, m: bv32, t: bv32,
        s: nat, r: bv32)
    requires |x| == 16 && k < 16 && s <= 32 && Constants(i, k, t, s) && x[k] == m && 16 <= i < 32
    requires Operations(v, x, i) == Words(a, b, c, d) && Add(b, RotateLeft(Sum(a, G(b, c, d), m, t), s)) == r
    ensures Operations(v, x, i + 1) == Words(d, r, b, c)
  {
    hide Add, RotateLeft, Sum, F, G, H, I, WordOf, SineOf, ShiftOf;
  }

  lemma OperationH(v: Words, x: seq<bv32>, i: nat, a: bv32, b: bv32, c: bv32, d: bv32, k: nat, m: bv32, t: bv32,
        s: nat, r: bv32)
    requires |x| == 16 && k < 16 && s <= 32 && Constants(i, k, t, s) && x[k] == m && 32 <= i < 48
    requires Operations(v, x, i) == Words(a, b, c, d) && Add(b, RotateLeft(Sum(a, H(b, c, d), m, t), s)) == r
    ensures Operations(v, x, i + 1) == Words(d, r, b, c)
  {
    hide Add, RotateLeft, Sum, F, G, H, I, WordOf, SineOf, ShiftOf;
  }

  lemma OperationI(v: Words, x: seq<bv32>, i: nat, a: bv32, b: bv32, c: bv32, d: bv32, k: nat, m: bv32, t: bv32,
        s: nat, r: bv32)
    requires |x| == 16 && k < 16 && s <= 32 && Constants(i, k, t, s) && x[k] == m && 48 <= i < 64
    requires Operations(v, x, i) == Words(a, b, c, d) && Add(b, RotateLeft(Sum(a, I(b, c, d), m, t), s)) == r
    ensures Operations(v, x, i + 1) == Words(d, r, b, c)
  {
    hide Add, RotateLeft, Sum, F, G, H, I, WordOf, SineOf, ShiftOf;
  }

  // ---------- The operations on the first block ----------

  lemma FirstRound1()
    ensures |FIRST| == 16 && Operations(BEGIN, FIRST, 16) == Words(0x3cbdcd45, 0x5d38e690, 0xfa148c8a, 0xb8dec763)
  {
    hide Operations, Operation, Constants, FIRST;
    FirstIs();
    NoOperations(BEGIN, FIRST);
    ConstantsFrom0();
    ConstantsFrom8();
    var v, x := BEGIN, FIRST;
    OperationF(v, x, 0, 0x67452301, 0xefcdab89, 0x98badcfe, 0x10325476, 0, 0x44434241, 0xd76aa478, 7, 0xc6c10796);
    OperationF(v, x, 1, 0x10325476, 0xc6c10796, 0xefcdab89, 0x98badcfe, 1, 0x48474645, 0xe8c7b756, 12, 0x99a09999);
    OperationF(v, x, 2, 0x98badcfe, 0x99a09999, 0xc6c10796, 0xefcdab89, 2, 0x4c4b4a49, 0x242070db, 17, 0x11067980);
    OperationF(v, x, 3, 0xefcdab89, 0x11067980, 0x99a09999, 0xc6c10796, 3, 0x504f4e4d, 0xc1bdceee, 22, 0x27bce07a);
    OperationF(v, x, 4, 0xc6c10796, 0x27bce07a, 0x11067980, 0x99a09999, 4, 0x54535251, 0xf57c0faf, 7, 0xf22e6c4e);
    OperationF(v, x, 5, 0x99a09999, 0xf22e6c4e, 0x27bce07a, 0x11067980, 5, 0x58575655, 0x4787c62a, 12, 0xb4ac9218);
    OperationF(v, x, 6, 0x11067980, 0xb4ac9218, 0xf22e6c4e, 0x27bce07a, 6, 0x62615a59, 0xa8304613, 17, 0xa95a2fc0);
    OperationF(v, x, 7, 0x27bce07a, 0xa95a2fc0, 0xb4ac9218, 0xf22e6c4e, 7, 0x66656463, 0xfd469501, 22, 0xa4799506);
    OperationF(v, x, 8, 0xf22e6c4e, 0xa4799506, 0xa95a2fc0, 0xb4ac9218, 8, 0x6a696867, 0x698098d8, 7, 0x1eb3e7c1);
    OperationF(v, x, 9, 0xb4ac9218, 0x1eb3e7c1, 0xa4799506, 0xa95a2fc0, 9, 0x6e6d6c6b, 0x8b44f7af, 12, 0xa6e70cfe);
    OperationF(v, x, 10, 0xa95a2fc0, 0xa6e70cfe, 0x1eb3e7c1, 0xa4799506, 10, 0x7271706f, 0xffff5bb1, 17, 0xca27520b);
    OperationF(v, x, 11, 0xa4799506, 0xca27520b, 0xa6e70cfe, 0x1eb3e7c1, 11, 0x76757473, 0x895cd7be, 22, 0x8a7612ec);
    OperationF(v, x, 12, 0x1eb3e7c1, 0x8a7612ec, 0xca27520b, 0xa6e70cfe, 12, 0x7a797877, 0x6b901122, 7, 0x3cbdcd45);
    OperationF(v, x, 13, 0xa6e70cfe, 0x3cbdcd45, 0x8a7612ec, 0xca27520b, 13, 0x33323130, 0xfd987193, 12, 0xb8dec763);
    OperationF(v, x, 14, 0xca27520b, 0xb8dec763, 0x3cbdcd45, 0x8a7612ec, 14, 0x37363534, 0xa679438e, 17, 0xfa148c8a);
    OperationF(v, x, 15, 0x8a7612ec, 0xfa148c8a, 0xb8dec763, 0x3cbdcd45, 15, 0x00803938, 0x49b40821, 22, 0x5d38e690);
  }

  lemma FirstRound2()
    ensures |FIRST| == 16 && Operations(BEGIN, FIRST, 32) == Words(0x9b085fa9, 0xdd789ecc, 0x5993248f, 0x4400a9bd)
  {
    hide Operations, Operation, Constants, FIRST;
    FirstIs();
    FirstRound1();
    ConstantsFrom16();
    ConstantsFrom24();
    var v, x := BEGIN, FIRST;
    OperationG(v, x, 16, 0x3cbdcd45, 0x5d38e690, 0xfa148c8a, 0xb8dec763, 1, 0x48474645, 0xf61e2562, 5, 0x04b9d52a);
    OperationG(v, x, 17, 0xb8dec763, 0x04b9d52a, 0x5d38e690, 0xfa148c8a, 6, 0x62615a59, 0xc040b340, 9, 0x783002eb);
    OperationG(v, x, 18, 0xfa148c8a, 0x783002eb, 0x04b9d52a, 0x5d38e690, 11, 0x76757473, 0x265e5a51, 14, 0xd3ee3ed1);
    OperationG(v, x, 19, 0x5d38e690, 0xd3ee3ed1, 0x783002eb, 0x04b9d52a, 0, 0x44434241, 0xe9b6c7aa, 20, 0x47ae7c81);
    OperationG(v, x, 20, 0x04b9d52a, 0x47ae7c81, 0xd3ee3ed1, 0x783002eb, 5, 0x58575655, 0xd62f105d, 5, 0x2d7d8a3f);
    OperationG(v, x, 21, 0x783002eb, 0x2d7d8a3f, 0x47ae7c81, 0xd3ee3ed1, 10, 0x7271706f, 0x02441453, 9, 0xd1210823);
    OperationG(v, x, 22, 0xd3ee3ed1, 0xd1210823, 0x2d7d8a3f, 0x47ae7c81, 15, 0x00803938, 0xd8a1e681, 14, 0x4b534dc3);
    OperationG(v, x, 23, 0x47ae7c81, 0x4b534dc3, 0xd1210823, 0x2d7d8a3f, 4, 0x54535251, 0xe7d3fbc8, 20, 0x75292030);
    OperationG(v, x, 24, 0x2d7d8a3f, 0x75292030, 0x4b534dc3, 0xd1210823, 9, 0x6e6d6c6b, 0x21e1cde6, 5, 0x9d2a6e33);
    OperationG(v, x, 25, 0xd1210823, 0x9d2a6e33, 0x75292030, 0x4b534dc3, 14, 0x37363534, 0xc33707d6, 9, 0x0e8d2e44);
    OperationG(v, x, 26, 0x4b534dc3, 0x0e8d2e44, 0x9d2a6e33, 0x75292030, 3, 0x504f4e4d, 0xf4d50d87, 14, 0xd473b564);
    OperationG(v, x, 27, 0x75292030, 0xd473b564, 0x0e8d2e44, 0x9d2a6e33, 8, 0x6a696867, 0x455a14ed, 20, 0xf2ff6ea0);
    OperationG(v, x, 28, 0x9d2a6e33, 0xf2ff6ea0, 0xd473b564, 0x0e8d2e44, 13, 0x33323130, 0xa9e3e905, 5, 0x9b085fa9);
    OperationG(v, x, 29, 0x0e8d2e44, 0x9b085fa9, 0xf2ff6ea0, 0xd473b564, 2, 0x4c4b4a49, 0xfcefa3f8, 9, 0x4400a9bd);
    OperationG(v, x, 30, 0xd473b564, 0x4400a9bd, 0x9b085fa9, 0xf2ff6ea0, 7, 0x66656463, 0x676f02d9, 14, 0x5993248f);
    OperationG(v, x, 31, 0xf2ff6ea0, 0x5993248f, 0x4400a9bd, 0x9b085fa9, 12, 0x7a797877, 0x8d2a4c8a, 20, 0xdd789ecc);
  }

  lemma FirstRound3()
    ensures |FIRST| == 16 && Operations(BEGIN, FIRST, 48) == Words(0x2dbee21d, 0xf166f514, 0xee46e961, 0xe95c3a43)
  {
    hide Operations, Operation, Constants, FIRST;
    FirstIs();
    FirstRound2();
    ConstantsFrom32();
    ConstantsFrom40();
    var v, x := BEGIN, FIRST;
    OperationH(v, x, 32, 0x9b085fa9, 0xdd789ecc, 0x5993248f, 0x4400a9bd, 5, 0x58575655, 0xfffa3942, 4, 0x21c8d2b7);
    OperationH(v, x, 33, 0x4400a9bd, 0x21c8d2b7, 0xdd789ecc, 0x5993248f, 8, 0x6a696867, 0x8771f681, 11, 0x1d55a18e);
    OperationH(v, x, 34, 0x5993248f, 0x1d55a18e, 0x21c8d2b7, 0xdd789ecc, 11, 0x76757473, 0x6d9d6122, 16, 0x056ec119);
    OperationH(v, x, 35, 0xdd789ecc, 0x056ec119, 0x1d55a18e, 0x21c8d2b7, 14, 0x37363534, 0xfde5380c, 23, 0x1b9504f8);
    OperationH(v, x, 36, 0x21c8d2b7, 0x1b9504f8, 0x056ec119, 0x1d55a18e, 1, 0x48474645, 0xa4beea44, 4, 0x436b7fe9);
    OperationH(v, x, 37, 0x1d55a18e, 0x436b7fe9, 0x1b9504f8, 0x056ec119, 4, 0x54535251, 0x4bdecfa9, 11, 0x075800c1);
    OperationH(v, x, 38, 0x056ec119, 0x075800c1, 0x436b7fe9, 0x1b9504f8, 7, 0x66656463, 0xf6bb4b60, 16, 0xf404c2f6);
    OperationH(v, x, 39, 0x1b9504f8, 0xf404c2f6, 0x075800c1, 0x436b7fe9, 10, 0x7271706f, 0xbebfbc70, 23, 0xcf0341ed);
    OperationH(v, x, 40, 0x436b7fe9, 0xcf0341ed, 0xf404c2f6, 0x075800c1, 13, 0x33323130, 0x289b7ec6, 4, 0x888e7d8a);
    OperationH(v, x, 41, 0x075800c1, 0x888e7d8a, 0xcf0341ed, 0xf404c2f6, 0, 0x44434241, 0xeaa127fa, 11, 0xbbdaecd8);
    OperationH(v, x, 42, 0xf404c2f6, 0xbbdaecd8, 0x888e7d8a, 0xcf0341ed, 3, 0x504f4e4d, 0xd4ef3085, 16, 0xce620273);
    OperationH(v, x, 43, 0xcf0341ed, 0xce620273, 0xbbdaecd8, 0x888e7d8a, 6, 0x62615a59, 0x04881d05, 23, 0x047b9419);
    OperationH(v, x, 44, 0x888e7d8a, 0x047b9419, 0xce620273, 0xbbdaecd8, 9, 0x6e6d6c6b, 0xd9d4d039, 4, 0x2dbee21d);
    OperationH(v, x, 45, 0xbbdaecd8, 0x2dbee21d, 0x047b9419, 0xce620273, 12, 0x7a797877, 0xe6db99e5, 11, 0xe95c3a43);
    OperationH(v, x, 46, 0xce620273, 0xe95c3a43, 0x2dbee21d, 0x047b9419, 15, 0x00803938, 0x1fa27cf8, 16, 0xee46e961);
    OperationH(v, x, 47, 0x047b9419, 0xee46e961, 0xe95c3a43, 0x2dbee21d, 2, 0x4c4b4a49, 0xc4ac5665, 23, 0xf166f514);
  }

  lemma FirstRound4()
    ensures |FIRST| == 16 && Operations(BEGIN, FIRST, 64) == Words(0x1cb80f0a, 0xef2e3a46, 0x10f68731, 0xea3d3eb4)
  {
    hide Operations, Operation, Constants, FIRST;
    FirstIs();
    FirstRound3();
    ConstantsFrom48();
    ConstantsFrom56();
    var v, x := BEGIN, FIRST;
    OperationI(v, x, 48, 0x2dbee21d, 0xf166f514, 0xee46e961, 0xe95c3a43, 0, 0x44434241, 0xf4292244, 6, 0xe47fd4f3);
    OperationI(v, x, 49, 0xe95c3a43, 0xe47fd4f3, 0xf166f514, 0xee46e961, 7, 0x66656463, 0x432aff97, 10, 0xfb887751);
    OperationI(v, x, 50, 0xee46e961, 0xfb887751, 0xe47fd4f3, 0xf166f514, 14, 0x37363534, 0xab9423a7, 15, 0xf22aedcc);
    OperationI(v, x, 51, 0xf166f514, 0xf22aedcc, 0xfb887751, 0xe47fd4f3, 5, 0x58575655, 0xfc93a039, 21, 0x7a13bc5c);
    OperationI(v, x, 52, 0xe47fd4f3, 0x7a13bc5c, 0xf22aedcc, 0xfb887751, 12, 0x7a797877, 0x655b59c3, 6, 0xa691d430);
    OperationI(v, x, 53, 0xfb887751, 0xa691d430, 0x7a13bc5c, 0xf22aedcc, 3, 0x504f4e4d, 0x8f0ccc92, 10, 0x528452f2);
    OperationI(v, x, 54, 0xf22aedcc, 0x528452f2, 0xa691d430, 0x7a13bc5c, 10, 0x7271706f, 0xffeff47d, 15, 0x3fc23df6);
    OperationI(v, x, 55, 0x7a13bc5c, 0x3fc23df6, 0x528452f2, 0xa691d430, 1, 0x48474645, 0x85845dd1, 21, 0xefb0e72f);
    OperationI(v, x, 56, 0xa691d430, 0xefb0e72f, 0x3fc23df6, 0x528452f2, 8, 0x6a696867, 0x6fa87e4f, 6, 0x27145703);
    OperationI(v, x, 57, 0x528452f2, 0x27145703, 0xefb0e72f, 0x3fc23df6, 15, 0x00803938, 0xfe2ce6e0, 10, 0x21a11069);
    OperationI(v, x, 58, 0x3fc23df6, 0x21a11069, 0x27145703, 0xefb0e72f, 6, 0x62615a59, 0xa3014314, 15, 0x374fbe79);
    OperationI(v, x, 59, 0xefb0e72f, 0x374fbe79, 0x21a11069, 0x27145703, 13, 0x33323130, 0x4e0811a1, 21, 0x49d9a5b4);
    OperationI(v, x, 60, 0x27145703, 0x49d9a5b4, 0x374fbe79, 0x21a11069, 4, 0x54535251, 0xf7537e82, 6, 0x1cb80f0a);
    OperationI(v, x, 61, 0x21a11069, 0x1cb80f0a, 0x49d9a5b4, 0x374fbe79, 11, 0x76757473, 0xbd3af235, 10, 0xea3d3eb4);
    OperationI(v, x, 62, 0x374fbe79, 0xea3d3eb4, 0x1cb80f0a, 0x49d9a5b4, 2, 0x4c4b4a49, 0x2ad7d2bb, 15, 0x10f68731);
    OperationI(v, x, 63, 0x49d9a5b4, 0x10f68731, 0xea3d3eb4, 0x1cb80f0a, 9, 0x6e6d6c6b, 0xeb86d391, 21, 0xef2e3a46);
  }

  // ---------- The operations on the second block ----------

  lemma SecondRound1()
    ensures |SECOND| == 16 && Operations(BETWEEN, SECOND, 16) == Words(0xa70737da, 0xa36f556f, 0x96f6586e, 0x5473f8a7)
  {
    hide Operations, Operation, Constants, SECOND;
    SecondIs();
    NoOperations(BETWEEN, SECOND);
    ConstantsFrom0();
    ConstantsFrom8();
    var v, x := BETWEEN, SECOND;
    OperationF(v, x, 0, 0x83fd320b, 0xdefbe5cf, 0xa9b1642f, 0xfa6f932a, 0, 0x00000000, 0xd76aa478, 7, 0xeda23ed1);
    OperationF(v, x, 1, 0xfa6f932a, 0xeda23ed1, 0xdefbe5cf, 0xa9b1642f, 1, 0x00000000, 0xe8c7b756, 12, 0x989939cf);
    OperationF(v, x, 2, 0xa9b1642f, 0x989939cf, 0xeda23ed1, 0xdefbe5cf, 2, 0x00000000, 0x242070db, 17, 0x3c307338);
    OperationF(v, x, 3, 0xdefbe5cf, 0x3c307338, 0x989939cf, 0xeda23ed1, 3, 0x00000000, 0xc1bdceee, 22, 0xddcf0634);
    OperationF(v, x, 4, 0xeda23ed1, 0xddcf0634, 0x3c307338, 0x989939cf, 4, 0x00000000, 0xf57c0faf, 7, 0x75144433);
    OperationF(v, x, 5, 0x989939cf, 0x75144433, 0xddcf0634, 0x3c307338, 5, 0x00000000, 0x4787c62a, 12, 0xc8875807);
    OperationF(v, x, 6, 0x3c307338, 0xc8875807, 0x75144433, 0xddcf0634, 6, 0x00000000, 0xa8304613, 17, 0xc783cb60);
    OperationF(v, x, 7, 0xddcf0634, 0xc783cb60, 0xc8875807, 0x75144433, 7, 0x00000000, 0xfd469501, 22, 0x99b6b699);
    OperationF(v, x, 8, 0x75144433, 0x99b6b699, 0xc783cb60, 0xc8875807, 8, 0x00000000, 0x698098d8, 7, 0xa60a3f69);
    OperationF(v, x, 9, 0xc8875807, 0xa60a3f69, 0x99b6b699, 0xc783cb60, 9, 0x00000000, 0x8b44f7af, 12, 0xaa6630be);
    OperationF(v, x, 10, 0xc783cb60, 0xaa6630be, 0xa60a3f69, 0x99b6b699, 10, 0x00000000, 0xffff5bb1, 17, 0x64db26e9);
    OperationF(v, x, 11, 0x99b6b699, 0x64db26e9, 0xaa6630be, 0xa60a3f69, 11, 0x00000000, 0x895cd7be, 22, 0x64cc7c5a);
    OperationF(v, x, 12, 0xa60a3f69, 0x64cc7c5a, 0x64db26e9, 0xaa6630be, 12, 0x00000000, 0x6b901122, 7, 0xa70737da);
    OperationF(v, x, 13, 0xaa6630be, 0xa70737da, 0x64cc7c5a, 0x64db26e9, 13, 0x00000000, 0xfd987193, 12, 0x5473f8a7);
    OperationF(v, x, 14, 0x64db26e9, 0x5473f8a7, 0xa70737da, 0x64cc7c5a, 14, 0x000001f0, 0xa679438e, 17, 0x96f6586e);
    OperationF(v, x, 15, 0x64cc7c5a, 0x96f6586e, 0x5473f8a7, 0xa70737da, 15, 0x00000000, 0x49b40821, 22, 0xa36f556f);
  }

  lemma SecondRound2()
    ensures |SECOND| == 16 && Operations(BETWEEN, SECOND, 32) == Words(0x24eba695, 0x9c03e2e8, 0x10c42a2f, 0x4bd0378b)
  {
    hide Operations, Operation, Constants, SECOND;
    SecondIs();
    SecondRound1();
    ConstantsFrom16();
    ConstantsFrom24();
    var v, x := BETWEEN, SECOND;
    OperationG(v, x, 16, 0xa70737da, 0xa36f556f, 0x96f6586e, 0x5473f8a7, 1, 0x00000000, 0xf61e2562, 5, 0xa5050ad3);
    OperationG(v, x, 17, 0x5473f8a7, 0xa5050ad3, 0xa36f556f, 0x96f6586e, 6, 0x00000000, 0xc040b340, 9, 0x28776046);
    OperationG(v, x, 18, 0x96f6586e, 0x28776046, 0xa5050ad3, 0xa36f556f, 11, 0x00000000, 0x265e5a51, 14, 0x27dcd8b4);
    OperationG(v, x, 19, 0xa36f556f, 0x27dcd8b4, 0x28776046, 0xa5050ad3, 0, 0x00000000, 0xe9b6c7aa, 20, 0x82b8827c);
    OperationG(v, x, 20, 0xa5050ad3, 0x82b8827c, 0x27dcd8b4, 0x28776046, 5, 0x00000000, 0xd62f105d, 5, 0xe04f070c);
    OperationG(v, x, 21, 0x28776046, 0xe04f070c, 0x82b8827c, 0x27dcd8b4, 10, 0x00000000, 0x02441453, 9, 0x2f3cd2a2);
    OperationG(v, x, 22, 0x27dcd8b4, 0x2f3cd2a2, 0xe04f070c, 0x82b8827c, 15, 0x00000000, 0xd8a1e681, 14, 0xc0d22b61);
    OperationG(v, x, 23, 0x82b8827c, 0xc0d22b61, 0x2f3cd2a2, 0xe04f070c, 4, 0x00000000, 0xe7d3fbc8, 20, 0xdf35cb56);
    OperationG(v, x, 24, 0xe04f070c, 0xdf35cb56, 0xc0d22b61, 0x2f3cd2a2, 9, 0x00000000, 0x21e1cde6, 5, 0x242dd210);
    OperationG(v, x, 25, 0x2f3cd2a2, 0x242dd210, 0xdf35cb56, 0xc0d22b61, 14, 0x000001f0, 0xc33707d6, 9, 0x576ace33);
    OperationG(v, x, 26, 0xc0d22b61, 0x576ace33, 0x242dd210, 0xdf35cb56, 3, 0x00000000, 0xf4d50d87, 14, 0x5c295967);
    OperationG(v, x, 27, 0xdf35cb56, 0x5c295967, 0x576ace33, 0x242dd210, 8, 0x00000000, 0x455a14ed, 20, 0x2291191a);
    OperationG(v, x, 28, 0x242dd210, 0x2291191a, 0x5c295967, 0x576ace33, 13, 0x00000000, 0xa9e3e905, 5, 0x24eba695);
    OperationG(v, x, 29, 0x576ace33, 0x24eba695, 0x2291191a, 0x5c295967, 2, 0x00000000, 0xfcefa3f8, 9, 0x4bd0378b);
    OperationG(v, x, 30, 0x5c295967, 0x4bd0378b, 0x24eba695, 0x2291191a, 7, 0x00000000, 0x676f02d9, 14, 0x10c42a2f);
    OperationG(v, x, 31, 0x2291191a, 0x10c42a2f, 0x4bd0378b, 0x24eba695, 12, 0x00000000, 0x8d2a4c8a, 20, 0x9c03e2e8);
  }

  lemma SecondRound3()
    ensures |SECOND| == 16 && Operations(BETWEEN, SECOND, 48) == Words(0x54c9eb3a, 0x79c0710a, 0x2ec86f72, 0xd4d9c6ac)
  {
    hide Operations, Operation, Constants, SECOND;
    SecondIs();
    SecondRound2();
    ConstantsFrom32();
    ConstantsFrom40();
    var v, x := BETWEEN, SECOND;
    OperationH(v, x, 32, 0x24eba695, 0x9c03e2e8, 0x10c42a2f, 0x4bd0378b, 5, 0x00000000, 0xfffa3942, 4, 0x5be1d526);
    OperationH(v, x, 33, 0x4bd0378b, 0x5be1d526, 0x9c03e2e8, 0x10c42a2f, 8, 0x00000000, 0x8771f681, 11, 0x9e414279);
    OperationH(v, x, 34, 0x10c42a2f, 0x9e414279, 0x5be1d526, 0x9c03e2e8, 11, 0x00000000, 0x6d9d6122, 16, 0x9f4a1a7e);
    OperationH(v, x, 35, 0x9c03e2e8, 0x9f4a1a7e, 0x9e414279, 0x5be1d526, 14, 0x000001f0, 0xfde5380c, 23, 0xa2448453);
    OperationH(v, x, 36, 0x5be1d526, 0xa2448453, 0x9f4a1a7e, 0x9e414279, 1, 0x00000000, 0xa4beea44, 4, 0xe14e403d);
    OperationH(v, x, 37, 0x9e414279, 0xe14e403d, 0xa2448453, 0x9f4a1a7e, 4, 0x00000000, 0x4bdecfa9, 11, 0xe8cfd670);
    OperationH(v, x, 38, 0x9f4a1a7e, 0xe8cfd670, 0xe14e403d, 0xa2448453, 7, 0x00000000, 0xf6bb4b60, 16, 0x60cc183a);
    OperationH(v, x, 39, 0xa2448453, 0x60cc183a, 0xe8cfd670, 0xe14e403d, 10, 0x00000000, 0xbebfbc70, 23, 0xfe314121);
    OperationH(v, x, 40, 0xe14e403d, 0xfe314121, 0x60cc183a, 0xe8cfd670, 13, 0x00000000, 0x289b7ec6, 4, 0xfff62809);
    OperationH(v, x, 41, 0xe8cfd670, 0xfff62809, 0xfe314121, 0x60cc183a, 0, 0x00000000, 0xeaa127fa, 11, 0xe37209ac);
    OperationH(v, x, 42, 0x60cc183a, 0xe37209ac, 0xfff62809, 0xfe314121, 3, 0x00000000, 0xd4ef3085, 16, 0x8cb5221c);
    OperationH(v, x, 43, 0xfe314121, 0x8cb5221c, 0xe37209ac, 0xfff62809, 6, 0x00000000, 0x04881d05, 23, 0x7c7e974c);
    OperationH(v, x, 44, 0xfff62809, 0x7c7e974c, 0x8cb5221c, 0xe37209ac, 9, 0x00000000, 0xd9d4d039, 4, 0x54c9eb3a);
    OperationH(v, x, 45, 0xe37209ac, 0x54c9eb3a, 0x7c7e974c, 0x8cb5221c, 12, 0x00000000, 0xe6db99e5, 11, 0xd4d9c6ac);
    OperationH(v, x, 46, 0x8cb5221c, 0xd4d9c6ac, 0x54c9eb3a, 0x7c7e974c, 15, 0x00000000, 0x1fa27cf8, 16, 0x2ec86f72);
    OperationH(v, x, 47, 0x7c7e974c, 0x2ec86f72, 0xd4d9c6ac, 0x54c9eb3a, 2, 0x00000000, 0xc4ac5665, 23, 0x79c0710a);
  }

  lemma SecondRound4()
    ensures |SECOND| == 16 && Operations(BETWEEN, SECOND, 64) == Words(0x14ae42c6, 0x16dd9203, 0x826afd76, 0xa52dae75)
  {
    hide Operations, Operation, Constants, SECOND;
    SecondIs();
    SecondRound3();
    ConstantsFrom48();
    ConstantsFrom56();
    var v, x := BETWEEN, SECOND;
    OperationI(v, x, 48, 0x54c9eb3a, 0x79c0710a, 0x2ec86f72, 0xd4d9c6ac, 0, 0x00000000, 0xf4292244, 6, 0x02095af1);
    OperationI(v, x, 49, 0xd4d9c6ac, 0x02095af1, 0x79c0710a, 0x2ec86f72, 7, 0x00000000, 0x432aff97, 10, 0x13d245fd);
    OperationI(v, x, 50, 0x2ec86f72, 0x13d245fd, 0x02095af1, 0x79c0710a, 14, 0x000001f0, 0xab9423a7, 15, 0xa8dcfe26);
    OperationI(v, x, 51, 0x79c0710a, 0xa8dcfe26, 0x13d245fd, 0x02095af1, 5, 0x00000000, 0xfc93a039, 21, 0x2ba98e3f);
    OperationI(v, x, 52, 0x02095af1, 0x2ba98e3f, 0xa8dcfe26, 0x13d245fd, 12, 0x00000000, 0x655b59c3, 6, 0xe126c1aa);
    OperationI(v, x, 53, 0x13d245fd, 0xe126c1aa, 0x2ba98e3f, 0xa8dcfe26, 3, 0x00000000, 0x8f0ccc92, 10, 0x96b00fa7);
    OperationI(v, x, 54, 0xa8dcfe26, 0x96b00fa7, 0xe126c1aa, 0x2ba98e3f, 10, 0x00000000, 0xffeff47d, 15, 0x6f287ff5);
    OperationI(v, x, 55, 0x2ba98e3f, 0x6f287ff5, 0x96b00fa7, 0xe126c1aa, 1, 0x00000000, 0x85845dd1, 21, 0xfb7bcee0);
    OperationI(v, x, 56, 0xe126c1aa, 0xfb7bcee0, 0x6f287ff5, 0x96b00fa7, 8, 0x00000000, 0x6fa87e4f, 6, 0x452c1099);
    OperationI(v, x, 57, 0x96b00fa7, 0x452c1099, 0xfb7bcee0, 0x6f287ff5, 15, 0x00000000, 0xfe2ce6e0, 10, 0xca801ba6);
    OperationI(v, x, 58, 0x6f287ff5, 0xca801ba6, 0x452c1099, 0xfb7bcee0, 6, 0x00000000, 0xa3014314, 15, 0xc197ea8e);
    OperationI(v, x, 59, 0xfb7bcee0, 0xc197ea8e, 0xca801ba6, 0x452c1099, 13, 0x00000000, 0x4e0811a1, 21, 0x5ac74608);
    OperationI(v, x, 60, 0x452c1099, 0x5ac74608, 0xc197ea8e, 0xca801ba6, 4, 0x00000000, 0xf7537e82, 6, 0x14ae42c6);
    OperationI(v, x, 61, 0xca801ba6, 0x14ae42c6, 0x5ac74608, 0xc197ea8e, 11, 0x00000000, 0xbd3af235, 10, 0xa52dae75);
    OperationI(v, x, 62, 0xc197ea8e, 0xa52dae75, 0x14ae42c6, 0x5ac74608, 2, 0x00000000, 0x2ad7d2bb, 15, 0x826afd76);
    OperationI(v, x, 63, 0x5ac74608, 0x826afd76, 0xa52dae75, 0x14ae42c6, 9, 0x00000000, 0xeb86d391, 21, 0x16dd9203);
  }

  // ---------- The digest ----------

  lemma FirstCompressed()
    ensures Compress(BEGIN, FIRST) == BETWEEN
  {
    hide Operations;
    FirstRound4();
  }

  lemma SecondCompressed()
    ensures Compress(BETWEEN, SECOND) == Words(0x98ab74d1, 0xf5d977d2, 0x2c1c61a5, 0x9f9d419f)
  {
    hide Operations;
    SecondRound4();
  }

  lemma LengthByte(k: nat, v: nat)
    requires k < 8 && 496 / Power256(k) % 256 == v
    ensures ByteOf(496, k) == v as bv8
  {
    hide Power256;
  }

  lemma LengthOfMessage()
    ensures NumberBytes(496, 0, 8) == [0xf0, 0x01, 0, 0, 0, 0, 0, 0]
  {
    hide ByteOf;
    LengthByte(0, 0xf0);
    LengthByte(1, 0x01);
    LengthByte(2, 0);
    LengthByte(3, 0);
    LengthByte(4, 0);
    LengthByte(5, 0);
    LengthByte(6, 0);
    LengthByte(7, 0);
  }

  lemma PartsOfMessage()
    ensures |ROW1| == |ROW2| == |ROW3| == 16 && |ROW4| == 14 && |MESSAGE| == 62
    ensures MESSAGE[..16] == ROW1 && MESSAGE[16..32] == ROW2 && MESSAGE[32..48] == ROW3 && MESSAGE[48..] == ROW4
  {
  }

  /** The padded message: 57 zeros and the 496 bits of the message behind its byte 0x80. */
  lemma PaddingOfMessage(p: seq<bv8>)
    requires p == PaddedMessage(MESSAGE)
    ensures |p| == 128 && p[..62] == MESSAGE && p[62] == 0x80 && p[120..] == [0xf0, 0x01, 0, 0, 0, 0, 0, 0]
    ensures forall i :: 63 <= i < 120 ==> p[i] == 0
  {
    hide NumberBytes, MESSAGE, ROW1, ROW2, ROW3, ROW4;
    PartsOfMessage();
    LengthOfMessage();
  }

  lemma WordIs(p: seq<bv8>, pos: nat, b0: bv8, b1: bv8, b2: bv8, b3: bv8, w: bv32)
    requires pos + 4 <= |p| && p[pos] == b0 && p[pos + 1] == b1 && p[pos + 2] == b2 && p[pos + 3] == b3
    requires (b0 as bv32) | (b1 as bv32 << 8) | (b2 as bv32 << 16) | (b3 as bv32 << 24) == w
    ensures WordAt(p, pos) == w
  {
  }

  lemma Row1Words()
    ensures |ROW1| == 16
    ensures WordAt(ROW1, 0) == 0x44434241 && WordAt(ROW1, 4) == 0x48474645
    ensures WordAt(ROW1, 8) == 0x4c4b4a49 && WordAt(ROW1, 12) == 0x504f4e4d
  {
  }

  lemma Row2Words()
    ensures |ROW2| == 16
    ensures WordAt(ROW2, 0) == 0x54535251 && WordAt(ROW2, 4) == 0x58575655
    ensures WordAt(ROW2, 8) == 0x62615a59 && WordAt(ROW2, 12) == 0x66656463
  {
  }

  lemma Row3Words()
    ensures |ROW3| == 16
    ensures WordAt(ROW3, 0) == 0x6a696867 && WordAt(ROW3, 4) == 0x6e6d6c6b
    ensures WordAt(ROW3, 8) == 0x7271706f && WordAt(ROW3, 12) == 0x76757473
  {
  }

  lemma Row4Words()
    ensures |ROW4| == 14
    ensures WordAt(ROW4 + [0x80, 0], 0) == 0x7a797877 && WordAt(ROW4 + [0x80, 0], 4) == 0x33323130
    ensures WordAt(ROW4 + [0x80, 0], 8) == 0x37363534 && WordAt(ROW4 + [0x80, 0], 12) == 0x00803938
  {
  }

  lemma WordInRow(p: seq<bv8>, pos: nat, row: seq<bv8>, k: nat)
    requires pos + |row| <= |p| && p[pos..pos + |row|] == row && 4 * k + 4 <= |row|
    ensures WordAt(p, pos + 4 * k) == WordAt(row, 4 * k)
  {
    assert forall i :: 0 <= i < |row| ==> p[pos + i] == row[i];
  }

  lemma FirstWords(p: seq<bv8>)
    requires |p| == 128 && p[..62] == MESSAGE && p[62] == 0x80 && p[63] == 0
    ensures BlockAt(p, 0) == FIRST
  {
    hide WordAt, MESSAGE, ROW1, ROW2, ROW3, ROW4, FIRST;
    FirstIs();
    RowsIn(p);
    Row1Words();
    Row2Words();
    Row3Words();
    Row4Words();
    forall k | 0 <= k < 4
      ensures WordAt(p, 4 * k) == FIRST[k] && WordAt(p, 16 + 4 * k) == FIRST[4 + k]
      ensures WordAt(p, 32 + 4 * k) == FIRST[8 + k] && WordAt(p, 48 + 4 * k) == FIRST[12 + k]
    {
      WordInRow(p, 0, ROW1, k);
      WordInRow(p, 16, ROW2, k);
      WordInRow(p, 32, ROW3, k);
      WordInRow(p, 48, ROW4 + [0x80, 0], k);
    }
    assert forall k :: 0 <= k < 16 ==> WordAt(p, 4 * k) == FIRST[k] by {
      assert forall k :: 4 <= k < 8 ==> 4 * k == 16 + 4 * (k - 4);
      assert forall k :: 8 <= k < 12 ==> 4 * k == 32 + 4 * (k - 8);
      assert forall k :: 12 <= k < 16 ==> 4 * k == 48 + 4 * (k - 12);
    }
  }

  lemma RowsIn(p: seq<bv8>)
    requires |p| == 128 && p[..62] == MESSAGE && p[62] == 0x80 && p[63] == 0
    ensures p[0..16] == ROW1 && p[16..32] == ROW2 && p[32..48] == ROW3 && p[48..64] == ROW4 + [0x80, 0]
  {
    hide MESSAGE, ROW1, ROW2, ROW3, ROW4;
    PartsOfMessage();
    assert p[..16] == MESSAGE[..16] && p[16..32] == MESSAGE[16..32] && p[32..48] == MESSAGE[32..48];
    assert p[48..62] == MESSAGE[48..];
  }

  lemma SecondWords(p: seq<bv8>)
    requires |p| == 64 && (forall i :: 0 <= i < 56 ==> p[i] == 0) && p[56..] == [0xf0, 0x01, 0, 0, 0, 0, 0, 0]
    ensures BlockAt(p, 0) == SECOND
  {
    hide WordAt, SECOND;
    SecondIs();
    assert forall i :: 0 <= i < 8 ==> p[56 + i] == p[56..][i];
    forall k | 0 <= k < 16 && k != 14
      ensures WordAt(p, 4 * k) == 0
    {
      WordIs(p, 4 * k, 0, 0, 0, 0, 0);
    }
    WordIs(p, 56, 0xf0, 0x01, 0, 0, 0x000001f0);
  }

  /** MD5 ("ABCDEFGHIJKLMNOPQRSTUVWXYZabcdefghijklmnopqrstuvwxyz0123456789") = d174ab98d277d9f5a5611c2c9f419d9f. */
  lemma DigestOfMessage()
    ensures Digest(MESSAGE) == [0xd1, 0x74, 0xab, 0x98, 0xd2, 0x77, 0xd9, 0xf5,
                                0xa5, 0x61, 0x1c, 0x2c, 0x9f, 0x41, 0x9d, 0x9f]
  {
    hide Compress, PaddedMessage, BlockAt, WordAt, MESSAGE, FIRST, SECOND;
    var p := PaddedMessage(MESSAGE);
    PaddingOfMessage(p);
    FirstWords(p);
    SecondWords(p[64..]);
    FirstCompressed();
    SecondCompressed();
    FoldOne(BETWEEN, p[64..]);
  }
}
