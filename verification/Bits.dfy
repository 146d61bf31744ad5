/** Machine words as natural numbers, with the C bitwise operators defined bit by bit. */
module Bits {
  import opened Common

  function Pow2(k: nat): (p: nat)
    ensures p > 0
  {
    if k == 0 then 1 else 2 * Pow2(k - 1)
  }

  /** Bit k of w, that is (w >> k) & 1. */
  predicate Bit(w: nat, k: nat) {
    if k == 0 then w % 2 == 1 else Bit(w / 2, k - 1)
  }

  function And(a: nat, b: nat): nat {
    if a == 0 || b == 0 then 0
    else (if a % 2 == 1 && b % 2 == 1 then 1 else 0) + 2 * And(a / 2, b / 2)
  }

  function Or(a: nat, b: nat): nat {
    if a == 0 then b
    else if b == 0 then a
    else (if a % 2 == 1 || b % 2 == 1 then 1 else 0) + 2 * Or(a / 2, b / 2)
  }

  function Xor(a: nat, b: nat): nat {
    if a == 0 then b
    else if b == 0 then a
    else (if a % 2 != b % 2 then 1 else 0) + 2 * Xor(a / 2, b / 2)
  }

  /** ~w in an unsigned type of the given width. */
  function Not(w: nat, width: nat): nat
    requires w < Pow2(width)
  {
    Pow2(width) - 1 - w
  }

  /** w >> k */
  function Shr(w: nat, k: nat): nat {
    if k == 0 then w else Shr(w / 2, k - 1)
  }

  function Popcount(w: nat): nat {
    if w == 0 then 0 else w % 2 + Popcount(w / 2)
  }

  lemma {:induction false} ZeroBit(k: nat)
    ensures !Bit(0, k)
  {
    if k > 0 { ZeroBit(k - 1); }
  }

  lemma {:induction false} AndBit(a: nat, b: nat, k: nat)
    ensures Bit(And(a, b), k) == (Bit(a, k) && Bit(b, k))
  {
    if a == 0 || b == 0 {
      ZeroBit(k);
    } else if k > 0 {
      AndBit(a / 2, b / 2, k - 1);
    }
  }

  lemma {:induction false} OrBit(a: nat, b: nat, k: nat)
    ensures Bit(Or(a, b), k) == (Bit(a, k) || Bit(b, k))
  {
    if a == 0 || b == 0 {
      ZeroBit(k);
    } else if k > 0 {
      OrBit(a / 2, b / 2, k - 1);
    }
  }

  lemma {:induction false} XorBit(a: nat, b: nat, k: nat)
    ensures Bit(Xor(a, b), k) == (Bit(a, k) != Bit(b, k))
  {
    if a == 0 || b == 0 {
      ZeroBit(k);
    } else if k > 0 {
      XorBit(a / 2, b / 2, k - 1);
    }
  }

  lemma {:induction false} PowBit(n: nat, k: nat)
    ensures Bit(Pow2(n), k) == (k == n)
  {
    if n == 0 {
      if k > 0 { ZeroBit(k - 1); }
    } else if k > 0 {
      PowBit(n - 1, k - 1);
    }
  }

  lemma {:induction false} NotBit(w: nat, width: nat, k: nat)
    requires w < Pow2(width)
    ensures Bit(Not(w, width), k) == (k < width && !Bit(w, k))
  {
    if width == 0 {
      ZeroBit(k);
    } else if k > 0 {
      assert Not(w, width) / 2 == Not(w / 2, width - 1);
      NotBit(w / 2, width - 1, k - 1);
    }
  }

  lemma {:induction false} AndBound(a: nat, b: nat)
    ensures And(a, b) <= a && And(a, b) <= b
  {
    if a != 0 && b != 0 { AndBound(a / 2, b / 2); }
  }

  lemma {:induction false} OrBound(a: nat, b: nat, n: nat)
    requires a < Pow2(n) && b < Pow2(n)
    ensures Or(a, b) < Pow2(n)
  {
    if a != 0 && b != 0 { OrBound(a / 2, b / 2, n - 1); }
  }

  lemma {:induction false} PowMono(a: nat, b: nat)
    requires a <= b
    ensures Pow2(a) <= Pow2(b)
    ensures a < b ==> Pow2(a) < Pow2(b)
  {
    if a > 0 { PowMono(a - 1, b - 1); } else if b > 0 { PowMono(0, b - 1); }
  }

  lemma {:induction false} PowAdd(a: nat, b: nat)
    ensures Pow2(a + b) == Pow2(a) * Pow2(b)
  {
    if a > 0 { PowAdd(a - 1, b); }
  }

  /** The n low bits of x. */
  function Low(x: nat, n: nat): nat {
    if n == 0 then 0 else x % 2 + 2 * Low(x / 2, n - 1)
  }

  /** Masking with 2^n - 1 leaves the n low bits. */
  lemma {:induction false} MaskIsLow(x: nat, n: nat)
    ensures And(x, Pow2(n) - 1) == Low(x, n)
  {
    if n > 0 {
      var mask := Pow2(n) - 1;
      MaskIsLow(x / 2, n - 1);
      assert mask % 2 == 1 && mask / 2 == Pow2(n - 1) - 1;
      if x == 0 { assert And(x / 2, Pow2(n - 1) - 1) == 0; }
    }
  }

  /** A right shift by n drops exactly the n low bits. */
  lemma {:induction false} LowSplits(x: nat, n: nat)
    ensures Low(x, n) < Pow2(n)
    ensures x == Pow2(n) * Shr(x, n) + Low(x, n)
  {
    if n > 0 {
      var s, m := Shr(x / 2, n - 1), Pow2(n - 1);
      LowSplits(x / 2, n - 1);
      DoubleProduct(m, s);
    }
  }

  lemma DoubleProduct(m: nat, s: nat)
    ensures (2 * m) * s == 2 * (m * s)
  {
  }

  lemma MaskIsMod(x: nat, n: nat)
    ensures And(x, Pow2(n) - 1) == x % Pow2(n)
    ensures Shr(x, n) == x / Pow2(n)
  {
    MaskIsLow(x, n);
    LowSplits(x, n);
    DivModUnique(x, Pow2(n), Shr(x, n), Low(x, n));
  }

  lemma Pow2Constants()
    ensures Pow2(6) == 64 && Pow2(12) == 0x1000
    ensures Pow2(32) == 0x1_0000_0000
    ensures Pow2(52) == 0x10_0000_0000_0000
    ensures Pow2(64) == 0x1_0000_0000_0000_0000
  {
    assert Pow2(12) == 0x1000;
    PowAdd(12, 12);
    PowAdd(24, 8);
    PowAdd(24, 24);
    PowAdd(48, 4);
    PowAdd(52, 12);
  }

  /** Words with the same bits are the same word. */
  lemma {:induction false} BitsDetermine(a: nat, b: nat)
    requires forall k: nat :: Bit(a, k) == Bit(b, k)
    ensures a == b
  {
    assert Bit(a, 0) == Bit(b, 0);
    if a != 0 || b != 0 {
      forall k: nat ensures Bit(a / 2, k) == Bit(b / 2, k) {
        assert Bit(a, k + 1) == Bit(b, k + 1);
      }
      BitsDetermine(a / 2, b / 2);
    }
  }

  /** Every bit of the all-ones word of a width is set below that width. */
  lemma AllOnesBit(width: nat, k: nat)
    ensures Bit(Pow2(width) - 1, k) == (k < width)
  {
    NotBit(0, width, k);
    ZeroBit(k);
  }

  lemma {:induction false} HighBitsClear(w: nat, width: nat, k: nat)
    requires w < Pow2(width) && width <= k
    ensures !Bit(w, k)
  {
    if width == 0 {
      ZeroBit(k);
    } else {
      HighBitsClear(w / 2, width - 1, k - 1);
    }
  }

  /** w |= 1 << n */
  function SetBit(w: nat, n: nat): nat {
    Or(w, Pow2(n))
  }

  /** w &= ~(1 << n) */
  function ClearBit(w: nat, n: nat, width: nat): nat
    requires n < width
  {
    PowMono(n, width);
    And(w, Not(Pow2(n), width))
  }

  /** (w & (1 << n)) != 0 */
  predicate TestBit(w: nat, n: nat) {
    And(w, Pow2(n)) != 0
  }

  lemma SetBitBits(w: nat, n: nat, width: nat)
    requires w < Pow2(width) && n < width
    ensures SetBit(w, n) < Pow2(width)
    ensures forall k: nat :: Bit(SetBit(w, n), k) == (Bit(w, k) || k == n)
  {
    PowMono(n, width);
    OrBound(w, Pow2(n), width);
    forall k: nat ensures Bit(SetBit(w, n), k) == (Bit(w, k) || k == n) {
      OrBit(w, Pow2(n), k);
      PowBit(n, k);
    }
  }

  lemma ClearBitBits(w: nat, n: nat, width: nat)
    requires w < Pow2(width) && n < width
    ensures ClearBit(w, n, width) < Pow2(width)
    ensures forall k: nat :: Bit(ClearBit(w, n, width), k) == (Bit(w, k) && k != n)
  {
    PowMono(n, width);
    AndBound(w, Not(Pow2(n), width));
    forall k: nat ensures Bit(ClearBit(w, n, width), k) == (Bit(w, k) && k != n) {
      AndBit(w, Not(Pow2(n), width), k);
      NotBit(Pow2(n), width, k);
      PowBit(n, k);
      if k >= width { HighBitsClear(w, width, k); }
    }
  }

  /** The mask test of the C code reads exactly one bit. */
  lemma TestBitIsBit(w: nat, n: nat)
    ensures TestBit(w, n) == Bit(w, n)
  {
    forall k: nat ensures Bit(And(w, Pow2(n)), k) == (k == n && Bit(w, n)) {
      AndBit(w, Pow2(n), k);
      PowBit(n, k);
    }
    if !Bit(w, n) {
      forall k: nat ensures Bit(And(w, Pow2(n)), k) == Bit(0, k) {
        ZeroBit(k);
      }
      BitsDetermine(And(w, Pow2(n)), 0);
    } else {
      ZeroBit(n);
    }
  }

  /** n &= n - 1 removes exactly one set bit. */
  lemma {:induction false} DropLowestBit(n: nat)
    requires n > 0
    ensures And(n, n - 1) < n
    ensures Popcount(And(n, n - 1)) == Popcount(n) - 1
  {
    if n % 2 == 1 {
      if n > 1 {
        AndSelf(n / 2);
        assert (n - 1) / 2 == n / 2;
        assert And(n, n - 1) == n - 1;
      }
    } else {
      DropLowestBit(n / 2);
      assert (n - 1) / 2 == n / 2 - 1;
      assert And(n, n - 1) == 2 * And(n / 2, n / 2 - 1);
    }
  }

  lemma {:induction false} AndSelf(n: nat)
    ensures And(n, n) == n
  {
    if n > 0 { AndSelf(n / 2); }
  }
}
