/**
Bitwise operations on unsigned words of any width.

A word of width `w` is a natural number below Pow2(w).  `And` and `Or` do not depend on
the width; complement (`Not`) does.  The lemmas here connect the bit level to arithmetic.
*/
module Bits {

  type byte = x: int | 0 <= x < 256

  function Pow2(k: nat): (p: nat)
    ensures p > 0
  {
    if k == 0 then 1 else 2 * Pow2(k - 1)
  }

  function And(x: nat, y: nat): nat {
    if x == 0 || y == 0 then 0
    else 2 * And(x / 2, y / 2) + (if x % 2 == 1 && y % 2 == 1 then 1 else 0)
  }

  function Or(x: nat, y: nat): nat
    decreases x + y
  {
    if x == 0 && y == 0 then 0
    else 2 * Or(x / 2, y / 2) + (if x % 2 == 1 || y % 2 == 1 then 1 else 0)
  }

  /** Complement of a word of width `w`. */
  function Not(w: nat, x: nat): nat
    requires x < Pow2(w)
  {
    Pow2(w) - 1 - x
  }

  /** Whether bit `i` of `x` is one. */
  predicate Bit(x: nat, i: nat) {
    if i == 0 then x % 2 == 1 else Bit(x / 2, i - 1)
  }

  function Shl(x: nat, k: nat): nat { x * Pow2(k) }

  function Shr(x: nat, k: nat): nat {
    QuotientNonnegative(x, Pow2(k));
    x / Pow2(k)
  }

  // ---------------------------------------------------------------- powers of two

  lemma {:induction false} Pow2Add(a: nat, b: nat)
    ensures Pow2(a + b) == Pow2(a) * Pow2(b)
  {
    if a == 0 {
    } else {
      Pow2Add(a - 1, b);
      assert Pow2(a + b) == 2 * Pow2(a - 1 + b);
      assert Pow2(a) * Pow2(b) == 2 * (Pow2(a - 1) * Pow2(b));
    }
  }

  lemma {:induction false} Pow2Monotone(a: nat, b: nat)
    requires a <= b
    ensures Pow2(a) <= Pow2(b)
    decreases b
  {
    if a < b {
      Pow2Monotone(a, b - 1);
    }
  }

  /** A different exponent gives a different power, in the same order. */
  lemma Pow2Strict(a: nat, b: nat)
    requires a < b
    ensures Pow2(a) < Pow2(b)
  {
    Pow2Monotone(a + 1, b);
  }

  lemma Pow2Values()
    ensures Pow2(1) == 2 && Pow2(2) == 4 && Pow2(4) == 16 && Pow2(5) == 32
    ensures Pow2(8) == 256 && Pow2(16) == 0x1_0000 && Pow2(32) == 0x1_0000_0000
    ensures Pow2(24) == 0x100_0000 && Pow2(31) == 0x8000_0000
  {
    assert Pow2(4) == 16;
    assert Pow2(8) == 256 by { Pow2Add(4, 4); }
    assert Pow2(16) == 0x1_0000 by { Pow2Add(8, 8); }
    assert Pow2(24) == 0x100_0000 by { Pow2Add(16, 8); }
    assert Pow2(32) == 0x1_0000_0000 by { Pow2Add(16, 16); }
  }

  // ---------------------------------------------------------------- division helpers

  lemma NonzeroMultipleIsLarge(a: int, d: int)
    requires d >= 0
    ensures a != 0 ==> a * d >= d || a * d <= -d
  {
  }

  /** Quotient and remainder are unique. */
  lemma DivModUnique(x: int, d: int, q: int, r: int)
    requires 0 <= r < d && x == q * d + r
    ensures x / d == q && x % d == r
  {
    NonzeroMultipleIsLarge(x / d - q, d);
    assert (x / d - q) * d == r - x % d;
  }

  lemma ModIdentity(x: int, d: int)
    requires 0 <= x < d
    ensures x % d == x
  {
    DivModUnique(x, d, 0, x);
  }

  /** Adding a multiple of the divisor does not change the remainder. */
  lemma ModIgnoresMultiples(r: int, q: int, d: int)
    requires d > 0
    ensures (q * d + r) % d == r % d
  {
    var t := r / d;
    assert t * d + r % d == r;
    assert (q + t) * d == q * d + t * d;
    DivModUnique(q * d + r, d, q + t, r % d);
  }

  lemma ModOfSum(x: int, d: int)
    requires 0 < d <= x < 2 * d
    ensures x % d == x - d
  {
    DivModUnique(x, d, 1, x - d);
  }

  lemma ModOfDifference(x: int, d: int)
    requires d > 0 && 0 - d <= x < 0
    ensures x % d == x + d
  {
    DivModUnique(x, d, -1, x + d);
  }

  /** Reducing modulo a multiple of d first does not change the remainder modulo d. */
  lemma ModTower(x: int, d: int, e: int)
    requires d > 0 && e > 0
    ensures d * e > 0 && x % (d * e) % d == x % d
  {
    var q := x / (d * e);
    assert q * (d * e) + x % (d * e) == x;
    assert q * (d * e) == (q * e) * d;
    ModIgnoresMultiples(x % (d * e), q * e, d);
  }

  /** Dividing by 2d is dividing by 2 and then by d. */
  lemma HalveDivMod(x: nat, d: nat)
    requires d > 0
    ensures x / (2 * d) == x / 2 / d
    ensures x % (2 * d) == 2 * (x / 2 % d) + x % 2
  {
    var q, r := x / 2 / d, 2 * (x / 2 % d) + x % 2;
    assert x / 2 == q * d + x / 2 % d;
    assert x == q * (2 * d) + r;
    DivModUnique(x, 2 * d, q, r);
  }

  lemma QuotientNonnegative(x: nat, d: nat)
    requires d > 0
    ensures x / d >= 0
  {
  }

  // ---------------------------------------------------------------- single bits

  /** Bit i is the parity of x / 2^i. */
  lemma {:induction false} BitIsQuotientParity(x: nat, i: nat)
    ensures Bit(x, i) <==> x / Pow2(i) % 2 == 1
    decreases i
  {
    if i == 0 {
    } else {
      HalveDivMod(x, Pow2(i - 1));
      BitIsQuotientParity(x / 2, i - 1);
    }
  }

  lemma {:induction false} BitOfZero(i: nat)
    ensures !Bit(0, i)
  {
    if i > 0 { BitOfZero(i - 1); }
  }

  lemma {:induction false} BitOfPow2(k: nat, i: nat)
    ensures Bit(Pow2(k), i) <==> i == k
  {
    if k == 0 {
      if i > 0 { BitOfZero(i - 1); }
    } else if i > 0 {
      BitOfPow2(k - 1, i - 1);
    }
  }

  lemma {:induction false} BitOfAnd(x: nat, y: nat, i: nat)
    ensures Bit(And(x, y), i) <==> Bit(x, i) && Bit(y, i)
  {
    if x == 0 || y == 0 {
      BitOfZero(i);
    } else {
      assert And(x, y) / 2 == And(x / 2, y / 2);
      if i > 0 { BitOfAnd(x / 2, y / 2, i - 1); }
    }
  }

  lemma {:induction false} BitOfOr(x: nat, y: nat, i: nat)
    ensures Bit(Or(x, y), i) <==> Bit(x, i) || Bit(y, i)
    decreases i
  {
    if x == 0 && y == 0 {
      BitOfZero(i);
    } else {
      assert Or(x, y) / 2 == Or(x / 2, y / 2);
      if i > 0 { BitOfOr(x / 2, y / 2, i - 1); }
    }
  }

  lemma {:induction false} BitOfNot(w: nat, x: nat, i: nat)
    requires x < Pow2(w) && i < w
    ensures Bit(Not(w, x), i) <==> !Bit(x, i)
  {
    assert Not(w, x) / 2 == Not(w - 1, x / 2);
    if i > 0 { BitOfNot(w - 1, x / 2, i - 1); }
  }

  lemma {:induction false} FullWordBits(w: nat, i: nat)
    requires i < w
    ensures Bit(Pow2(w) - 1, i)
  {
    assert (Pow2(w) - 1) / 2 == Pow2(w - 1) - 1;
    if i > 0 { FullWordBits(w - 1, i - 1); }
  }

  /** A word is determined by its bits. */
  lemma {:induction false} WordsEqualByBits(w: nat, x: nat, y: nat)
    requires x < Pow2(w) && y < Pow2(w)
    requires forall i: nat :: i < w ==> (Bit(x, i) <==> Bit(y, i))
    ensures x == y
  {
    if w > 0 {
      assert Bit(x, 0) <==> Bit(y, 0);
      forall i: nat | i < w - 1 ensures Bit(x / 2, i) <==> Bit(y / 2, i) {
        assert Bit(x, i + 1) <==> Bit(y, i + 1);
      }
      WordsEqualByBits(w - 1, x / 2, y / 2);
    }
  }

  // ---------------------------------------------------------------- masks as arithmetic

  lemma {:induction false} AndSelf(x: nat)
    ensures And(x, x) == x
  {
    if x > 0 { AndSelf(x / 2); }
  }

  lemma {:induction false} AndSymmetric(x: nat, y: nat)
    ensures And(x, y) == And(y, x)
  {
    if x > 0 && y > 0 { AndSymmetric(x / 2, y / 2); }
  }

  lemma {:induction false} AndBounded(x: nat, y: nat)
    ensures And(x, y) <= x && And(x, y) <= y
  {
    if x > 0 && y > 0 {
      AndBounded(x / 2, y / 2);
    }
  }

  lemma {:induction false} OrBounded(w: nat, x: nat, y: nat)
    requires x < Pow2(w) && y < Pow2(w)
    ensures Or(x, y) < Pow2(w)
  {
    if w > 0 { OrBounded(w - 1, x / 2, y / 2); }
  }

  /** One unfolding of And, zero operands included. */
  lemma AndStep(x: nat, y: nat)
    ensures And(x, y) == 2 * And(x / 2, y / 2) + (if x % 2 == 1 && y % 2 == 1 then 1 else 0)
  {
  }

  /** Masking with 2^k - 1 is the remainder modulo 2^k. */
  lemma {:induction false} AndMaskIsMod(x: nat, k: nat)
    ensures And(x, Pow2(k) - 1) == x % Pow2(k)
  {
    if k > 0 {
      var h := Pow2(k - 1);
      AndMaskIsMod(x / 2, k - 1);
      AndStep(x, 2 * h - 1);
      assert (2 * h - 1) / 2 == h - 1;
      HalveDivMod(x, h);
    }
  }

  /** Masking with a field of `n` ones placed at bit `s` selects that field in place. */
  lemma {:induction false} AndFieldIsSlice(x: nat, n: nat, s: nat)
    ensures And(x, Shl(Pow2(n) - 1, s)) == Shl(x / Pow2(s) % Pow2(n), s)
    decreases s
  {
    if s == 0 {
      AndMaskIsMod(x, n);
    } else {
      var f := Shl(Pow2(n) - 1, s - 1);
      ShlStep(Pow2(n) - 1, s);
      AndFieldIsSlice(x / 2, n, s - 1);
      HalveDivMod(x, Pow2(s - 1));
      ShlStep(x / Pow2(s) % Pow2(n), s);
      AndStep(x, 2 * f);
    }
  }

  lemma ShlStep(x: nat, s: nat)
    requires s > 0
    ensures Shl(x, s) == 2 * Shl(x, s - 1)
  {
    assert x * (2 * Pow2(s - 1)) == 2 * (x * Pow2(s - 1));
  }

  /** Clearing the bits of a mask subtracts exactly the masked part, at every width. */
  lemma {:induction false} AndNotIsSubtract(w: nat, x: nat, m: nat)
    requires x < Pow2(w) && m < Pow2(w)
    ensures And(x, Not(w, m)) == x - And(x, m)
  {
    if w > 0 {
      AndNotIsSubtract(w - 1, x / 2, m / 2);
      assert Not(w, m) / 2 == Not(w - 1, m / 2);
      assert Not(w, m) % 2 == 1 - m % 2;
      AndStep(x, m);
      AndStep(x, Not(w, m));
    }
  }

  /** Testing one bit with a one-bit mask. */
  lemma {:induction false} AndPow2IsBit(x: nat, k: nat)
    ensures And(x, Pow2(k)) == (if Bit(x, k) then Pow2(k) else 0)
  {
    if x == 0 {
      BitOfZero(k);
    } else if k == 0 {
      assert And(x / 2, 0) == 0;
    } else {
      AndPow2IsBit(x / 2, k - 1);
    }
  }

  /** Words that share no bit position add up when joined. */
  lemma {:induction false} OrDisjointIsSum(x: nat, y: nat, k: nat)
    requires y < Pow2(k)
    ensures Or(Shl(x, k), y) == Shl(x, k) + y
    decreases k
  {
    if k == 0 {
      OrZero(x);
    } else {
      var h := Shl(x, k - 1);
      ShlStep(x, k);
      OrDisjointIsSum(x, y / 2, k - 1);
      assert Or(2 * h, y) == 2 * Or(h, y / 2) + y % 2;
    }
  }

  lemma {:induction false} OrZero(x: nat)
    ensures Or(x, 0) == x
  {
    if x > 0 { OrZero(x / 2); }
  }
}
