/** The compression function of MD5 (RFC 1321, section 3.4), and the rewritten form the program uses. */
module Md5Block {

  datatype Words = Words(a: bv32, b: bv32, c: bv32, d: bv32)

  // ---------- RFC 1321, section 3.4 ----------

  function F(x: bv32, y: bv32, z: bv32): bv32
  {
    (x & y) | (!x & z)
  }

  function G(x: bv32, y: bv32, z: bv32): bv32
  {
    (x & z) | (y & !z)
  }

  function H(x: bv32, y: bv32, z: bv32): bv32
  {
    x ^ y ^ z
  }

  function I(x: bv32, y: bv32, z: bv32): bv32
  {
    y ^ (x | !z)
  }

  function Add(x: bv32, y: bv32): bv32
  {
    x + y
  }

  function Sum(a: bv32, f: bv32, x: bv32, t: bv32): bv32
  {
    a + f + x + t
  }

  function RotateLeft(x: bv32, s: nat): bv32
    requires s <= 32
  {
    (x << s) | (x >> (32 - s))
  }

  /** The auxiliary function of operation i. */
  function Auxiliary(i: nat, x: bv32, y: bv32, z: bv32): bv32
  {
    if i < 16 then F(x, y, z) else if i < 32 then G(x, y, z) else if i < 48 then H(x, y, z) else I(x, y, z)
  }

  /** The word of the block that operation i takes. */
  function WordOf(i: nat): nat
  {
    if i < 16 then i else if i < 32 then (5 * i + 1) % 16 else if i < 48 then (3 * i + 5) % 16 else 7 * i % 16
  }

  function ShiftOf(i: nat): (s: nat)
    ensures s <= 32
  {
    var r := i % 4;
    if i < 16 then (if r == 0 then 7 else if r == 1 then 12 else if r == 2 then 17 else 22)
    else if i < 32 then (if r == 0 then 5 else if r == 1 then 9 else if r == 2 then 14 else 20)
    else if i < 48 then (if r == 0 then 4 else if r == 1 then 11 else if r == 2 then 16 else 23)
    else (if r == 0 then 6 else if r == 1 then 10 else if r == 2 then 15 else 21)
  }

  /** The table of sines: entry i is the integer part of 2^32 times abs(sin(i + 1)). */
  function SineOf(i: nat): bv32
  {
    if i < 16 then Sines1(i) else if i < 32 then Sines2(i) else if i < 48 then Sines3(i) else Sines4(i)
  }

  function Sines1(i: nat): bv32
  {
    match i
    case 0 => 0xd76aa478
    case 1 => 0xe8c7b756
    case 2 => 0x242070db
    case 3 => 0xc1bdceee
    case 4 => 0xf57c0faf
    case 5 => 0x4787c62a
    case 6 => 0xa8304613
    case 7 => 0xfd469501
    case 8 => 0x698098d8
    case 9 => 0x8b44f7af
    case 10 => 0xffff5bb1
    case 11 => 0x895cd7be
    case 12 => 0x6b901122
    case 13 => 0xfd987193
    case 14 => 0xa679438e
    case _ => 0x49b40821
  }

  function Sines2(i: nat): bv32
  {
    match i
    case 16 => 0xf61e2562
    case 17 => 0xc040b340
    case 18 => 0x265e5a51
    case 19 => 0xe9b6c7aa
    case 20 => 0xd62f105d
    case 21 => 0x02441453
    case 22 => 0xd8a1e681
    case 23 => 0xe7d3fbc8
    case 24 => 0x21e1cde6
    case 25 => 0xc33707d6
    case 26 => 0xf4d50d87
    case 27 => 0x455a14ed
    case 28 => 0xa9e3e905
    case 29 => 0xfcefa3f8
    case 30 => 0x676f02d9
    case _ => 0x8d2a4c8a
  }

  function Sines3(i: nat): bv32
  {
    match i
    case 32 => 0xfffa3942
    case 33 => 0x8771f681
    case 34 => 0x6d9d6122
    case 35 => 0xfde5380c
    case 36 => 0xa4beea44
    case 37 => 0x4bdecfa9
    case 38 => 0xf6bb4b60
    case 39 => 0xbebfbc70
    case 40 => 0x289b7ec6
    case 41 => 0xeaa127fa
    case 42 => 0xd4ef3085
    case 43 => 0x04881d05
    case 44 => 0xd9d4d039
    case 45 => 0xe6db99e5
    case 46 => 0x1fa27cf8
    case _ => 0xc4ac5665
  }

  function Sines4(i: nat): bv32
  {
    match i
    case 48 => 0xf4292244
    case 49 => 0x432aff97
    case 50 => 0xab9423a7
    case 51 => 0xfc93a039
    case 52 => 0x655b59c3
    case 53 => 0x8f0ccc92
    case 54 => 0xffeff47d
    case 55 => 0x85845dd1
    case 56 => 0x6fa87e4f
    case 57 => 0xfe2ce6e0
    case 58 => 0xa3014314
    case 59 => 0x4e0811a1
    case 60 => 0xf7537e82
    case 61 => 0xbd3af235
    case 62 => 0x2ad7d2bb
    case _ => 0xeb86d391
  }

  /** One operation: the four words change places, and one is replaced. */
  function Operation(w: Words, x: seq<bv32>, i: nat): Words
    requires |x| == 16
  {
    var sum := Sum(w.a, Auxiliary(i, w.b, w.c, w.d), x[WordOf(i)], SineOf(i));
    Words(w.d, Add(w.b, RotateLeft(sum, ShiftOf(i))), w.b, w.c)
  }

  function Operations(w: Words, x: seq<bv32>, n: nat): Words
    requires |x| == 16
  {
    if n == 0 then w else Operation(Operations(w, x, n - 1), x, n - 1)
  }

  function Plus(w: Words, v: Words): Words
  {
    Words(w.a + v.a, w.b + v.b, w.c + v.c, w.d + v.d)
  }

  /** All 64 operations, and the addition of the words before them. */
  function Compress(w: Words, x: seq<bv32>): Words
    requires |x| == 16
  {
    Plus(Operations(w, x, 64), w)
  }

  // ---------- The program's functions ----------

  function Ff(x: bv32, y: bv32, z: bv32): bv32
  {
    z ^ (x & (y ^ z))
  }

  function Gg(x: bv32, y: bv32, z: bv32): bv32
  {
    y ^ (z & (x ^ y))
  }

  function H2(x: bv32, y: bv32, z: bv32): bv32
  {
    x ^ (y ^ z)
  }

  lemma ChooseRewritten(x: bv32, y: bv32, z: bv32)
    ensures z ^ (x & (y ^ z)) == (x & y) | (!x & z)
  {
  }

  lemma ChooseByLast(x: bv32, y: bv32, z: bv32)
    ensures y ^ (z & (x ^ y)) == (x & z) | (y & !z)
  {
  }

  /** The rewritten auxiliary functions are those of the RFC. */
  lemma FfIsF(x: bv32, y: bv32, z: bv32)
    ensures Ff(x, y, z) == F(x, y, z)
  {
    ChooseRewritten(x, y, z);
  }

  lemma GgIsG(x: bv32, y: bv32, z: bv32)
    ensures Gg(x, y, z) == G(x, y, z)
  {
    ChooseByLast(x, y, z);
  }

  lemma H2IsH(x: bv32, y: bv32, z: bv32)
    ensures H2(x, y, z) == H(x, y, z)
  {
  }

  /** The three lines of the STEP macro, the auxiliary function already applied. */
  function Gathered(f: bv32, a: bv32, x: bv32, t: bv32): bv32
  {
    a + (f + x + t)
  }

  function Turned(a: bv32, s: nat): bv32
    requires s <= 32
  {
    (a << s) | ((a & 0xffff_ffff) >> (32 - s))
  }

  function Raised(a: bv32, b: bv32): bv32
  {
    a + b
  }

  lemma GatheredIsSum(f: bv32, a: bv32, x: bv32, t: bv32)
    ensures Gathered(f, a, x, t) == Sum(a, f, x, t)
  {
  }

  lemma TurnedIsRotated(a: bv32, s: nat)
    requires s <= 32
    ensures Turned(a, s) == RotateLeft(a, s)
  {
  }

  lemma RaisedIsAdded(a: bv32, b: bv32)
    ensures Raised(a, b) == Add(b, a)
  {
  }

  /** After n operations on the block the words are these, up to their places. */
  ghost predicate Reached(start: Words, x: seq<bv32>, n: nat, a: bv32, b: bv32, c: bv32, d: bv32)
    requires |x| == 16
  {
    Operations(start, x, n) == Words(a, b, c, d)
  }

  method StepF(a: bv32, b: bv32, c: bv32, d: bv32, word: bv32, t: bv32, s: nat, ghost start: Words, ghost x: seq<bv32>,
        ghost n: nat, ghost k: nat)
    returns (r: bv32)
    requires |x| == 16 && 0 <= n < 16 && Reached(start, x, n, a, b, c, d)
    requires k < 16 && word == x[k] && s <= 32 && Constants(n, k, t, s)
    ensures Reached(start, x, n + 1, d, r, b, c)
  {
    hide Gathered, Turned, Raised, Sum, Add, RotateLeft, F, G, H, I, Ff, Gg, H2, WordOf, SineOf, ShiftOf;
    var f := Ff(b, c, d);
    FfIsF(b, c, d);
    r := Gathered(f, a, word, t);
    GatheredIsSum(f, a, word, t);
    TurnedIsRotated(r, s);
    r := Turned(r, s);
    RaisedIsAdded(r, b);
    r := Raised(r, b);
  }

  method StepG(a: bv32, b: bv32, c: bv32, d: bv32, word: bv32, t: bv32, s: nat, ghost start: Words, ghost x: seq<bv32>,
        ghost n: nat, ghost k: nat)
    returns (r: bv32)
    requires |x| == 16 && 16 <= n < 32 && Reached(start, x, n, a, b, c, d)
    requires k < 16 && word == x[k] && s <= 32 && Constants(n, k, t, s)
    ensures Reached(start, x, n + 1, d, r, b, c)
  {
    hide Gathered, Turned, Raised, Sum, Add, RotateLeft, F, G, H, I, Ff, Gg, H2, WordOf, SineOf, ShiftOf;
    var f := Gg(b, c, d);
    GgIsG(b, c, d);
    r := Gathered(f, a, word, t);
    GatheredIsSum(f, a, word, t);
    TurnedIsRotated(r, s);
    r := Turned(r, s);
    RaisedIsAdded(r, b);
    r := Raised(r, b);
  }

  method StepH(a: bv32, b: bv32, c: bv32, d: bv32, word: bv32, t: bv32, s: nat, ghost start: Words, ghost x: seq<bv32>,
        ghost n: nat, ghost k: nat)
    returns (r: bv32)
    requires |x| == 16 && 32 <= n < 48 && Reached(start, x, n, a, b, c, d)
    requires k < 16 && word == x[k] && s <= 32 && Constants(n, k, t, s)
    ensures Reached(start, x, n + 1, d, r, b, c)
  {
    hide Gathered, Turned, Raised, Sum, Add, RotateLeft, F, G, H, I, Ff, Gg, H2, WordOf, SineOf, ShiftOf;
    var f := H(b, c, d);
    r := Gathered(f, a, word, t);
    GatheredIsSum(f, a, word, t);
    TurnedIsRotated(r, s);
    r := Turned(r, s);
    RaisedIsAdded(r, b);
    r := Raised(r, b);
  }

  method StepH2(a: bv32, b: bv32, c: bv32, d: bv32, word: bv32, t: bv32, s: nat, ghost start: Words, ghost x: seq<bv32>,
        ghost n: nat, ghost k: nat)
    returns (r: bv32)
    requires |x| == 16 && 32 <= n < 48 && Reached(start, x, n, a, b, c, d)
    requires k < 16 && word == x[k] && s <= 32 && Constants(n, k, t, s)
    ensures Reached(start, x, n + 1, d, r, b, c)
  {
    hide Gathered, Turned, Raised, Sum, Add, RotateLeft, F, G, H, I, Ff, Gg, H2, WordOf, SineOf, ShiftOf;
    var f := H2(b, c, d);
    H2IsH(b, c, d);
    r := Gathered(f, a, word, t);
    GatheredIsSum(f, a, word, t);
    TurnedIsRotated(r, s);
    r := Turned(r, s);
    RaisedIsAdded(r, b);
    r := Raised(r, b);
  }

  method StepI(a: bv32, b: bv32, c: bv32, d: bv32, word: bv32, t: bv32, s: nat, ghost start: Words, ghost x: seq<bv32>,
        ghost n: nat, ghost k: nat)
    returns (r: bv32)
    requires |x| == 16 && 48 <= n < 64 && Reached(start, x, n, a, b, c, d)
    requires k < 16 && word == x[k] && s <= 32 && Constants(n, k, t, s)
    ensures Reached(start, x, n + 1, d, r, b, c)
  {
    hide Gathered, Turned, Raised, Sum, Add, RotateLeft, F, G, H, I, Ff, Gg, H2, WordOf, SineOf, ShiftOf;
    var f := I(b, c, d);
    r := Gathered(f, a, word, t);
    GatheredIsSum(f, a, word, t);
    TurnedIsRotated(r, s);
    r := Turned(r, s);
    RaisedIsAdded(r, b);
    r := Raised(r, b);
  }

  /** Operation n takes word k, the sine t and the shift s. */
  ghost predicate Constants(n: nat, k: nat, t: bv32, s: nat)
  {
    WordOf(n) == k && SineOf(n) == t && ShiftOf(n) == s
  }

  lemma ConstantsFrom0()
    ensures Constants(0, 0, 0xd76aa478, 7) && Constants(1, 1, 0xe8c7b756, 12)
    ensures Constants(2, 2, 0x242070db, 17) && Constants(3, 3, 0xc1bdceee, 22)
    ensures Constants(4, 4, 0xf57c0faf, 7) && Constants(5, 5, 0x4787c62a, 12)
    ensures Constants(6, 6, 0xa8304613, 17) && Constants(7, 7, 0xfd469501, 22)
  {
  }

  lemma ConstantsFrom8()
    ensures Constants(8, 8, 0x698098d8, 7) && Constants(9, 9, 0x8b44f7af, 12)
    ensures Constants(10, 10, 0xffff5bb1, 17) && Constants(11, 11, 0x895cd7be, 22)
    ensures Constants(12, 12, 0x6b901122, 7) && Constants(13, 13, 0xfd987193, 12)
    ensures Constants(14, 14, 0xa679438e, 17) && Constants(15, 15, 0x49b40821, 22)
  {
  }

  lemma ConstantsFrom16()
    ensures Constants(16, 1, 0xf61e2562, 5) && Constants(17, 6, 0xc040b340, 9)
    ensures Constants(18, 11, 0x265e5a51, 14) && Constants(19, 0, 0xe9b6c7aa, 20)
    ensures Constants(20, 5, 0xd62f105d, 5) && Constants(21, 10, 0x02441453, 9)
    ensures Constants(22, 15, 0xd8a1e681, 14) && Constants(23, 4, 0xe7d3fbc8, 20)
  {
  }

  lemma ConstantsFrom24()
    ensures Constants(24, 9, 0x21e1cde6, 5) && Constants(25, 14, 0xc33707d6, 9)
    ensures Constants(26, 3, 0xf4d50d87, 14) && Constants(27, 8, 0x455a14ed, 20)
    ensures Constants(28, 13, 0xa9e3e905, 5) && Constants(29, 2, 0xfcefa3f8, 9)
    ensures Constants(30, 7, 0x676f02d9, 14) && Constants(31, 12, 0x8d2a4c8a, 20)
  {
  }

  lemma ConstantsFrom32()
    ensures Constants(32, 5, 0xfffa3942, 4) && Constants(33, 8, 0x8771f681, 11)
    ensures Constants(34, 11, 0x6d9d6122, 16) && Constants(35, 14, 0xfde5380c, 23)
    ensures Constants(36, 1, 0xa4beea44, 4) && Constants(37, 4, 0x4bdecfa9, 11)
    ensures Constants(38, 7, 0xf6bb4b60, 16) && Constants(39, 10, 0xbebfbc70, 23)
  {
  }

  lemma ConstantsFrom40()
    ensures Constants(40, 13, 0x289b7ec6, 4) && Constants(41, 0, 0xeaa127fa, 11)
    ensures Constants(42, 3, 0xd4ef3085, 16) && Constants(43, 6, 0x04881d05, 23)
    ensures Constants(44, 9, 0xd9d4d039, 4) && Constants(45, 12, 0xe6db99e5, 11)
    ensures Constants(46, 15, 0x1fa27cf8, 16) && Constants(47, 2, 0xc4ac5665, 23)
  {
  }

  lemma ConstantsFrom48()
    ensures Constants(48, 0, 0xf4292244, 6) && Constants(49, 7, 0x432aff97, 10)
    ensures Constants(50, 14, 0xab9423a7, 15) && Constants(51, 5, 0xfc93a039, 21)
    ensures Constants(52, 12, 0x655b59c3, 6) && Constants(53, 3, 0x8f0ccc92, 10)
    ensures Constants(54, 10, 0xffeff47d, 15) && Constants(55, 1, 0x85845dd1, 21)
  {
  }

  lemma ConstantsFrom56()
    ensures Constants(56, 8, 0x6fa87e4f, 6) && Constants(57, 15, 0xfe2ce6e0, 10)
    ensures Constants(58, 6, 0xa3014314, 15) && Constants(59, 13, 0x4e0811a1, 21)
    ensures Constants(60, 4, 0xf7537e82, 6) && Constants(61, 11, 0xbd3af235, 10)
    ensures Constants(62, 2, 0x2ad7d2bb, 15) && Constants(63, 9, 0xeb86d391, 21)
  {
  }

  method Round1(start: Words, x: seq<bv32>, a0: bv32, b0: bv32, c0: bv32, d0: bv32)
    returns (a: bv32, b: bv32, c: bv32, d: bv32)
    requires |x| == 16 && Reached(start, x, 0, a0, b0, c0, d0)
    ensures Reached(start, x, 16, a, b, c, d)
  {
    hide Constants, Reached, Operations, Operation, Auxiliary, F, G, H, I, Ff, Gg, H2, Sum, Add, RotateLeft;
    a, b, c, d := a0, b0, c0, d0;
    ConstantsFrom0();
    ConstantsFrom8();
    a := StepF(a, b, c, d, x[0], 0xd76aa478, 7, start, x, 0, 0);
    d := StepF(d, a, b, c, x[1], 0xe8c7b756, 12, start, x, 1, 1);
    c := StepF(c, d, a, b, x[2], 0x242070db, 17, start, x, 2, 2);
    b := StepF(b, c, d, a, x[3], 0xc1bdceee, 22, start, x, 3, 3);
    a := StepF(a, b, c, d, x[4], 0xf57c0faf, 7, start, x, 4, 4);
    d := StepF(d, a, b, c, x[5], 0x4787c62a, 12, start, x, 5, 5);
    c := StepF(c, d, a, b, x[6], 0xa8304613, 17, start, x, 6, 6);
    b := StepF(b, c, d, a, x[7], 0xfd469501, 22, start, x, 7, 7);
    a := StepF(a, b, c, d, x[8], 0x698098d8, 7, start, x, 8, 8);
    d := StepF(d, a, b, c, x[9], 0x8b44f7af, 12, start, x, 9, 9);
    c := StepF(c, d, a, b, x[10], 0xffff5bb1, 17, start, x, 10, 10);
    b := StepF(b, c, d, a, x[11], 0x895cd7be, 22, start, x, 11, 11);
    a := StepF(a, b, c, d, x[12], 0x6b901122, 7, start, x, 12, 12);
    d := StepF(d, a, b, c, x[13], 0xfd987193, 12, start, x, 13, 13);
    c := StepF(c, d, a, b, x[14], 0xa679438e, 17, start, x, 14, 14);
    b := StepF(b, c, d, a, x[15], 0x49b40821, 22, start, x, 15, 15);
  }

  method Round2(start: Words, x: seq<bv32>, a0: bv32, b0: bv32, c0: bv32, d0: bv32)
    returns (a: bv32, b: bv32, c: bv32, d: bv32)
    requires |x| == 16 && Reached(start, x, 16, a0, b0, c0, d0)
    ensures Reached(start, x, 32, a, b, c, d)
  {
    hide Constants, Reached, Operations, Operation, Auxiliary, F, G, H, I, Ff, Gg, H2, Sum, Add, RotateLeft;
    a, b, c, d := a0, b0, c0, d0;
    ConstantsFrom16();
    ConstantsFrom24();
    a := StepG(a, b, c, d, x[1], 0xf61e2562, 5, start, x, 16, 1);
    d := StepG(d, a, b, c, x[6], 0xc040b340, 9, start, x, 17, 6);
    c := StepG(c, d, a, b, x[11], 0x265e5a51, 14, start, x, 18, 11);
    b := StepG(b, c, d, a, x[0], 0xe9b6c7aa, 20, start, x, 19, 0);
    a := StepG(a, b, c, d, x[5], 0xd62f105d, 5, start, x, 20, 5);
    d := StepG(d, a, b, c, x[10], 0x02441453, 9, start, x, 21, 10);
    c := StepG(c, d, a, b, x[15], 0xd8a1e681, 14, start, x, 22, 15);
    b := StepG(b, c, d, a, x[4], 0xe7d3fbc8, 20, start, x, 23, 4);
    a := StepG(a, b, c, d, x[9], 0x21e1cde6, 5, start, x, 24, 9);
    d := StepG(d, a, b, c, x[14], 0xc33707d6, 9, start, x, 25, 14);
    c := StepG(c, d, a, b, x[3], 0xf4d50d87, 14, start, x, 26, 3);
    b := StepG(b, c, d, a, x[8], 0x455a14ed, 20, start, x, 27, 8);
    a := StepG(a, b, c, d, x[13], 0xa9e3e905, 5, start, x, 28, 13);
    d := StepG(d, a, b, c, x[2], 0xfcefa3f8, 9, start, x, 29, 2);
    c := StepG(c, d, a, b, x[7], 0x676f02d9, 14, start, x, 30, 7);
    b := StepG(b, c, d, a, x[12], 0x8d2a4c8a, 20, start, x, 31, 12);
  }

  method Round3(start: Words, x: seq<bv32>, a0: bv32, b0: bv32, c0: bv32, d0: bv32)
    returns (a: bv32, b: bv32, c: bv32, d: bv32)
    requires |x| == 16 && Reached(start, x, 32, a0, b0, c0, d0)
    ensures Reached(start, x, 48, a, b, c, d)
  {
    hide Constants, Reached, Operations, Operation, Auxiliary, F, G, H, I, Ff, Gg, H2, Sum, Add, RotateLeft;
    a, b, c, d := a0, b0, c0, d0;
    ConstantsFrom32();
    ConstantsFrom40();
    a := StepH(a, b, c, d, x[5], 0xfffa3942, 4, start, x, 32, 5);
    d := StepH2(d, a, b, c, x[8], 0x8771f681, 11, start, x, 33, 8);
    c := StepH(c, d, a, b, x[11], 0x6d9d6122, 16, start, x, 34, 11);
    b := StepH2(b, c, d, a, x[14], 0xfde5380c, 23, start, x, 35, 14);
    a := StepH(a, b, c, d, x[1], 0xa4beea44, 4, start, x, 36, 1);
    d := StepH2(d, a, b, c, x[4], 0x4bdecfa9, 11, start, x, 37, 4);
    c := StepH(c, d, a, b, x[7], 0xf6bb4b60, 16, start, x, 38, 7);
    b := StepH2(b, c, d, a, x[10], 0xbebfbc70, 23, start, x, 39, 10);
    a := StepH(a, b, c, d, x[13], 0x289b7ec6, 4, start, x, 40, 13);
    d := StepH2(d, a, b, c, x[0], 0xeaa127fa, 11, start, x, 41, 0);
    c := StepH(c, d, a, b, x[3], 0xd4ef3085, 16, start, x, 42, 3);
    b := StepH2(b, c, d, a, x[6], 0x04881d05, 23, start, x, 43, 6);
    a := StepH(a, b, c, d, x[9], 0xd9d4d039, 4, start, x, 44, 9);
    d := StepH2(d, a, b, c, x[12], 0xe6db99e5, 11, start, x, 45, 12);
    c := StepH(c, d, a, b, x[15], 0x1fa27cf8, 16, start, x, 46, 15);
    b := StepH2(b, c, d, a, x[2], 0xc4ac5665, 23, start, x, 47, 2);
  }

  method Round4(start: Words, x: seq<bv32>, a0: bv32, b0: bv32, c0: bv32, d0: bv32)
    returns (a: bv32, b: bv32, c: bv32, d: bv32)
    requires |x| == 16 && Reached(start, x, 48, a0, b0, c0, d0)
    ensures Reached(start, x, 64, a, b, c, d)
  {
    hide Constants, Reached, Operations, Operation, Auxiliary, F, G, H, I, Ff, Gg, H2, Sum, Add, RotateLeft;
    a, b, c, d := a0, b0, c0, d0;
    ConstantsFrom48();
    ConstantsFrom56();
    a := StepI(a, b, c, d, x[0], 0xf4292244, 6, start, x, 48, 0);
    d := StepI(d, a, b, c, x[7], 0x432aff97, 10, start, x, 49, 7);
    c := StepI(c, d, a, b, x[14], 0xab9423a7, 15, start, x, 50, 14);
    b := StepI(b, c, d, a, x[5], 0xfc93a039, 21, start, x, 51, 5);
    a := StepI(a, b, c, d, x[12], 0x655b59c3, 6, start, x, 52, 12);
    d := StepI(d, a, b, c, x[3], 0x8f0ccc92, 10, start, x, 53, 3);
    c := StepI(c, d, a, b, x[10], 0xffeff47d, 15, start, x, 54, 10);
    b := StepI(b, c, d, a, x[1], 0x85845dd1, 21, start, x, 55, 1);
    a := StepI(a, b, c, d, x[8], 0x6fa87e4f, 6, start, x, 56, 8);
    d := StepI(d, a, b, c, x[15], 0xfe2ce6e0, 10, start, x, 57, 15);
    c := StepI(c, d, a, b, x[6], 0xa3014314, 15, start, x, 58, 6);
    b := StepI(b, c, d, a, x[13], 0x4e0811a1, 21, start, x, 59, 13);
    a := StepI(a, b, c, d, x[4], 0xf7537e82, 6, start, x, 60, 4);
    d := StepI(d, a, b, c, x[11], 0xbd3af235, 10, start, x, 61, 11);
    c := StepI(c, d, a, b, x[2], 0x2ad7d2bb, 15, start, x, 62, 2);
    b := StepI(b, c, d, a, x[9], 0xeb86d391, 21, start, x, 63, 9);
  }

  lemma ReachedAtFirst(w: Words, x: seq<bv32>)
    requires |x| == 16
    ensures Reached(w, x, 0, w.a, w.b, w.c, w.d)
  {
  }

  /** The four rounds on one block. */
  method CompressBlock(w: Words, x: seq<bv32>) returns (r: Words)
    requires |x| == 16
    ensures r == Compress(w, x)
  {
    hide Operations, Operation, Plus, F, G, H, I, Sum, Add, RotateLeft;
    ReachedAtFirst(w, x);
    var a, b, c, d := Round1(w, x, w.a, w.b, w.c, w.d);
    a, b, c, d := Round2(w, x, a, b, c, d);
    a, b, c, d := Round3(w, x, a, b, c, d);
    a, b, c, d := Round4(w, x, a, b, c, d);
    r := Plus(Words(a, b, c, d), w);
  }
}
