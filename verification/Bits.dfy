/** Bit-level arithmetic on natural numbers: the C operators <<, >>, | and & defined digit by digit, with
    the law that says what each one does to bit k. */
module Bits {

  /** Bit k of x, counted from the least significant one. */
  function Bit(x: nat, k: nat): bool
  {
    if k == 0 then x % 2 == 1 else Bit(x / 2, k - 1)
  }

  function Pow2(n: nat): (r: nat)
    ensures r > 0
  {
    if n == 0 then 1 else 2 * Pow2(n - 1)
  }

  function Shl(x: nat, n: nat): nat
  {
    if n == 0 then x else 2 * Shl(x, n - 1)
  }

  function Shr(x: nat, n: nat): nat
  {
    if n == 0 then x else Shr(x / 2, n - 1)
  }

  function BitOr(x: nat, y: nat): nat
    decreases x + y
  {
    if x == 0 && y == 0 then 0
    else 2 * BitOr(x / 2, y / 2) + (if x % 2 == 1 || y % 2 == 1 then 1 else 0)
  }

  function BitAnd(x: nat, y: nat): nat
    decreases x + y
  {
    if x == 0 && y == 0 then 0
    else 2 * BitAnd(x / 2, y / 2) + (if x % 2 == 1 && y % 2 == 1 then 1 else 0)
  }

  /** The number whose bit k is b[k]. */
  function FromBits(b: seq<bool>): nat
  {
    if b == [] then 0 else 2 * FromBits(b[1..]) + (if b[0] then 1 else 0)
  }

  lemma {:induction false} BitOfZero(k: nat)
    ensures !Bit(0, k)
  {
    if k > 0 {
      BitOfZero(k - 1);
    }
  }

  lemma {:induction false} BitOfShl(x: nat, n: nat, k: nat)
    ensures Bit(Shl(x, n), k) == (k >= n && Bit(x, k - n))
  {
    if n > 0 && k > 0 {
      BitOfShl(x, n - 1, k - 1);
    }
  }

  lemma {:induction false} BitOfShr(x: nat, n: nat, k: nat)
    ensures Bit(Shr(x, n), k) == Bit(x, k + n)
    decreases n
  {
    if n > 0 {
      BitOfShr(x / 2, n - 1, k);
    }
  }

  lemma {:induction false} BitOfOr(x: nat, y: nat, k: nat)
    ensures Bit(BitOr(x, y), k) == (Bit(x, k) || Bit(y, k))
    decreases k
  {
    if x == 0 && y == 0 {
      BitOfZero(k);
    } else if k > 0 {
      BitOfOr(x / 2, y / 2, k - 1);
    }
  }

  lemma {:induction false} BitOfAnd(x: nat, y: nat, k: nat)
    ensures Bit(BitAnd(x, y), k) == (Bit(x, k) && Bit(y, k))
    decreases k
  {
    if x == 0 && y == 0 {
      BitOfZero(k);
    } else if k > 0 {
      BitOfAnd(x / 2, y / 2, k - 1);
    }
  }

  /** A mask of n ones keeps the low n bits. */
  lemma {:induction false} MaskKeepsLowBits(x: nat, n: nat, k: nat)
    ensures BitAnd(x, Pow2(n) - 1) < Pow2(n)
    ensures Bit(BitAnd(x, Pow2(n) - 1), k) == (k < n && Bit(x, k))
  {
    OnesBelow(n, k);
    BitOfAnd(x, Pow2(n) - 1, k);
    AndAtMost(x, Pow2(n) - 1);
  }

  lemma {:induction false} OnesBelow(n: nat, k: nat)
    ensures Bit(Pow2(n) - 1, k) == (k < n)
  {
    if n == 0 {
      BitOfZero(k);
    } else if k > 0 {
      OnesBelow(n - 1, k - 1);
      assert (Pow2(n) - 1) / 2 == Pow2(n - 1) - 1;
    }
  }

  lemma {:induction false} AndAtMost(x: nat, y: nat)
    ensures BitAnd(x, y) <= y
    decreases x + y
  {
    if x > 0 || y > 0 {
      AndAtMost(x / 2, y / 2);
    }
  }

  /** A number below 2^n has no bit at n or above. */
  lemma {:induction false} NoBitAbove(x: nat, n: nat, k: nat)
    requires x < Pow2(n) && n <= k
    ensures !Bit(x, k)
    decreases k
  {
    if n == 0 {
      BitOfZero(k);
    } else {
      NoBitAbove(x / 2, n - 1, k - 1);
    }
  }

  /** Bits determine the number. */
  lemma {:induction false} FromBitsIsUnique(x: nat, b: seq<bool>)
    requires x < Pow2(|b|)
    requires forall k :: 0 <= k < |b| ==> Bit(x, k) == b[k]
    ensures x == FromBits(b)
  {
    if b != [] {
      assert Bit(x, 0) == b[0];
      forall k | 0 <= k < |b| - 1
        ensures Bit(x / 2, k) == b[1..][k]
      {
        assert Bit(x, k + 1) == b[k + 1];
      }
      FromBitsIsUnique(x / 2, b[1..]);
    }
  }

  lemma {:induction false} FromBitsHasBits(b: seq<bool>)
    ensures FromBits(b) < Pow2(|b|)
    ensures forall k :: 0 <= k < |b| ==> Bit(FromBits(b), k) == b[k]
  {
    if b != [] {
      hide Bit, FromBits;
      FromBitsHasBits(b[1..]);
      FromBitsStep(b);
      forall k | 0 <= k < |b|
        ensures Bit(FromBits(b), k) == b[k]
      {
        if k == 0 {
          FirstBit(FromBits(b));
        } else {
          NextBit(FromBits(b), k - 1);
          assert b[k] == b[1..][k - 1];
        }
      }
    } else {
      assert FromBits(b) == 0;
    }
  }

  lemma FromBitsStep(b: seq<bool>)
    requires b != []
    ensures FromBits(b) / 2 == FromBits(b[1..]) && FromBits(b) % 2 == if b[0] then 1 else 0
  {
  }

  lemma FirstBit(x: nat)
    ensures Bit(x, 0) == (x % 2 == 1)
  {
  }

  lemma NextBit(x: nat, k: nat)
    ensures Bit(x, k + 1) == Bit(x / 2, k)
  {
  }

  lemma {:induction false} ShrBelow(x: nat, n: nat, m: nat)
    requires x < Pow2(n + m)
    ensures Shr(x, n) < Pow2(m)
    decreases n
  {
    if n > 0 {
      ShrBelow(x / 2, n - 1, m);
    }
  }

  /** Adding below the shifted bits is or-ing: no carry can occur. */
  lemma {:induction false} AddBelowIsOr(x: nat, n: nat, y: nat)
    requires y < Pow2(n)
    ensures Shl(x, n) + y == BitOr(Shl(x, n), y)
    decreases n
  {
    if n == 0 {
      OrZero(x);
    } else {
      AddBelowIsOr(x, n - 1, y / 2);
    }
  }

  lemma {:induction false} OrZero(x: nat)
    ensures BitOr(x, 0) == x
  {
    if x > 0 {
      OrZero(x / 2);
    }
  }

  lemma PowersOfTwo()
    ensures Pow2(1) == 2 && Pow2(2) == 4 && Pow2(3) == 8 && Pow2(4) == 16
    ensures Pow2(5) == 32 && Pow2(6) == 64 && Pow2(7) == 128 && Pow2(8) == 256
  {
    assert Pow2(4) == 16;
    assert Pow2(6) == 64;
  }

  lemma {:induction false} ShrIsDiv(x: nat, n: nat)
    ensures Shr(x, n) == x / Pow2(n)
    decreases n
  {
    if n > 0 {
      ShrIsDiv(x / 2, n - 1);
      HalvesFirst(x, Pow2(n - 1));
    }
  }

  lemma HalvesFirst(x: nat, p: nat)
    requires p > 0
    ensures x / 2 / p == x / (2 * p) && x % (2 * p) == 2 * (x / 2 % p) + x % 2
  {
    var q, r := x / 2 / p, x / 2 % p;
    assert x / 2 == p * q + r;
    assert x == (2 * p) * q + (2 * r + x % 2);
    DivModIs(x, 2 * p, q, 2 * r + x % 2);
  }

  lemma DivModIs(x: nat, d: nat, q: nat, r: nat)
    requires d > 0 && r < d && x == d * q + r
    ensures x / d == q && x % d == r
  {
    MultiplesAreApart(d, x / d, x % d, q, r);
  }

  lemma MultiplesAreApart(d: nat, q: nat, r: nat, q': nat, r': nat)
    requires r < d && r' < d && d * q + r == d * q' + r'
    ensures q == q' && r == r'
  {
    assert d * (q + 1) == d * q + d && d * (q' + 1) == d * q' + d;
    MulMonotone(d, q + 1, q');
    MulMonotone(d, q' + 1, q);
  }

  lemma MulMonotone(d: nat, a: nat, b: nat)
    ensures a <= b ==> d * a <= d * b
  {
  }

  lemma {:induction false} ShlIsMul(x: nat, n: nat)
    ensures Shl(x, n) == x * Pow2(n)
  {
    if n > 0 {
      ShlIsMul(x, n - 1);
    }
  }

  /** x & (2^n - 1) == x % 2^n. */
  lemma {:induction false} MaskIsMod(x: nat, n: nat)
    ensures BitAnd(x, Pow2(n) - 1) == x % Pow2(n)
    decreases n
  {
    if n == 0 {
      AndAtMost(x, 0);
    } else {
      MaskIsMod(x / 2, n - 1);
      HalvesFirst(x, Pow2(n - 1));
      assert (Pow2(n) - 1) / 2 == Pow2(n - 1) - 1 && (Pow2(n) - 1) % 2 == 1;
    }
  }

  lemma {:induction false} OrCommutes(x: nat, y: nat)
    ensures BitOr(x, y) == BitOr(y, x)
    decreases x + y
  {
    if x > 0 || y > 0 {
      OrCommutes(x / 2, y / 2);
    }
  }
}
