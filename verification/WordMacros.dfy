/**
The arithmetic macros of bcmutils.h on unsigned words of `w` bits: rounding, alignment
tests, and the modular increment/add/subtract macros with their mask-based fast forms.
Every intermediate result is wrapped to the word size, as unsigned C arithmetic does; the one
signed subtraction, in MODSUB, wraps around in two's complement where C leaves it undefined.
*/
module WordMacros {
  import opened Bits

  function Wrap(w: nat, x: int): nat { x % Pow2(w) }

  /** The value of a `w`-bit word read as a two's complement integer, the cast `(int)`. */
  function AsInt(w: nat, x: nat): int
    requires w > 0
  {
    if x < Pow2(w - 1) then x else x - Pow2(w)
  }

  /** ((int)(x)) - ((int)(y)), an int difference that wraps around on overflow. */
  function SignedDifference(w: nat, x: nat, y: nat): int
    requires w > 0
  {
    AsInt(w, Wrap(w, AsInt(w, x) - AsInt(w, y)))
  }

  function Ceil(w: nat, x: nat, y: nat): nat
    requires y > 0
  {
    Wrap(w, x + (y - 1)) / y
  }

  function RoundUp(w: nat, x: nat, y: nat): nat
    requires y > 0
  {
    Wrap(w, Ceil(w, x, y) * y)
  }

  predicate IsAligned(w: nat, a: nat, x: nat) { And(a, Wrap(w, x - 1)) == 0 }

  predicate IsPowerOf2(w: nat, x: nat) { And(Wrap(w, x - 1), x) == 0 }

  predicate ValidMask(w: nat, mask: nat) { And(mask, Wrap(w, mask + 1)) == 0 }

  function Mux<T>(pred: bool, a: T, b: T): T { if pred then a else b }

  function ModDec(w: nat, x: nat, bound: nat): nat {
    Mux(x == 0, Wrap(w, bound - 1), Wrap(w, x - 1))
  }

  function ModInc(w: nat, x: nat, bound: nat): nat {
    Mux(x == Wrap(w, bound - 1), 0, Wrap(w, x + 1))
  }

  function ModDecPow2(w: nat, x: nat, bound: nat): nat { And(Wrap(w, x - 1), Wrap(w, bound - 1)) }

  function ModIncPow2(w: nat, x: nat, bound: nat): nat { And(Wrap(w, x + 1), Wrap(w, bound - 1)) }

  function ModAdd(w: nat, x: nat, y: nat, bound: nat): nat {
    Mux(Wrap(w, x + y) >= bound, Wrap(w, Wrap(w, x + y) - bound), Wrap(w, x + y))
  }

  function ModSub(w: nat, x: nat, y: nat, bound: nat): nat
    requires w > 0
  {
    Mux(SignedDifference(w, x, y) < 0, Wrap(w, Wrap(w, x - y) + bound), Wrap(w, x - y))
  }

  function ModAddPow2(w: nat, x: nat, y: nat, bound: nat): nat {
    And(Wrap(w, x + y), Wrap(w, bound - 1))
  }

  function ModSubPow2(w: nat, x: nat, y: nat, bound: nat): nat {
    And(Wrap(w, x - y), Wrap(w, bound - 1))
  }

  // ---------------------------------------------------------------- alignment predicates

  ghost predicate PowerOfTwo(x: nat) { exists k: nat :: x == Pow2(k) }

  /** `r` is the least multiple of `y` that is not below `x`. */
  ghost predicate LeastMultipleFrom(r: nat, x: nat, y: nat)
    requires y > 0
  {
    r % y == 0 && r >= x && forall z: nat :: z % y == 0 && z >= x ==> z >= r
  }

  lemma WrapFits(w: nat, x: int)
    requires 0 <= x < Pow2(w)
    ensures Wrap(w, x) == x
  {
    ModIdentity(x, Pow2(w));
  }

  /** x and x - 1 share no bit exactly when x is a power of two. */
  lemma {:induction false} PredecessorDisjoint(x: nat)
    requires x > 0
    ensures And(x - 1, x) == 0 <==> PowerOfTwo(x)
  {
    if x % 2 == 1 {
      AndSelf(x / 2);
      assert And(x - 1, x) == x - 1;
      if x == 1 {
        assert x == Pow2(0);
      } else {
        forall k: nat ensures x != Pow2(k) { if k > 0 { assert Pow2(k) % 2 == 0; } }
      }
    } else {
      assert (x - 1) / 2 == x / 2 - 1;
      PredecessorDisjoint(x / 2);
      assert And(x - 1, x) == 2 * And(x / 2 - 1, x / 2);
      if PowerOfTwo(x / 2) {
        var k: nat :| x / 2 == Pow2(k);
        assert x == Pow2(k + 1);
      }
      if PowerOfTwo(x) {
        var k: nat :| x == Pow2(k);
        assert x / 2 == Pow2(k - 1);
      }
    }
  }

  /** The test accepts zero and the powers of two, and nothing else, at every word size. */
  lemma IsPowerOf2Exact(w: nat, x: nat)
    requires x < Pow2(w)
    ensures IsPowerOf2(w, x) <==> x == 0 || PowerOfTwo(x)
  {
    if x > 0 {
      WrapFits(w, x - 1);
      PredecessorDisjoint(x);
    }
  }

  lemma {:induction false} SuccessorDisjoint(m: nat)
    ensures And(m, m + 1) == 0 <==> PowerOfTwo(m + 1)
  {
    if m > 0 {
      PredecessorDisjoint(m + 1);
    } else {
      assert m + 1 == Pow2(0);
    }
  }

  /** A mask is valid exactly when it is a run of low ones, including the full word. */
  lemma ValidMaskExact(w: nat, mask: nat)
    requires mask < Pow2(w)
    ensures ValidMask(w, mask) <==> PowerOfTwo(mask + 1)
  {
    if mask + 1 == Pow2(w) {
      ModOfSum(mask + 1, Pow2(w));
    } else {
      WrapFits(w, mask + 1);
      SuccessorDisjoint(mask);
    }
  }

  /** For a power of two, the mask test is divisibility. */
  lemma IsAlignedIsDivisibility(w: nat, a: nat, k: nat)
    requires Pow2(k) <= Pow2(w)
    ensures IsAligned(w, a, Pow2(k)) <==> a % Pow2(k) == 0
  {
    WrapFits(w, Pow2(k) - 1);
    AndMaskIsMod(a, k);
  }

  /** The mask test decides divisibility for every address exactly when x is a power of two. */
  lemma IsAlignedNeedsPowerOfTwo(w: nat, x: nat)
    requires 0 < x < Pow2(w)
    ensures (forall a: nat :: a < Pow2(w) ==> (IsAligned(w, a, x) <==> a % x == 0)) <==> PowerOfTwo(x)
  {
    if PowerOfTwo(x) {
      var k: nat :| x == Pow2(k);
      forall a: nat | a < Pow2(w) ensures IsAligned(w, a, x) <==> a % x == 0 {
        IsAlignedIsDivisibility(w, a, k);
      }
    } else {
      WrapFits(w, x - 1);
      PredecessorDisjoint(x);
      AndSymmetric(x - 1, x);
      assert x < Pow2(w) && !IsAligned(w, x, x) && x % x == 0;
    }
  }

  lemma LeastMultipleByDivision(x: nat, y: nat)
    requires y > 0
    ensures (x + (y - 1)) / y * y < x + y
    ensures LeastMultipleFrom((x + (y - 1)) / y * y, x, y)
  {
    var q := (x + (y - 1)) / y;
    var rem := (x + (y - 1)) % y;
    assert q * y + rem == x + (y - 1);
    DivModUnique(q * y, y, q, 0);
    forall z: nat | z % y == 0 && z >= x ensures z >= q * y {
      var p := z / y;
      assert z == p * y;
      NonzeroMultipleIsLarge(q - p, y);
      assert (q - p) * y == q * y - z;
    }
  }

  /** ROUNDUP gives the least multiple not below x exactly when x + (y - 1) does not wrap. */
  lemma RoundUpExact(w: nat, x: nat, y: nat)
    requires x < Pow2(w) && 0 < y < Pow2(w)
    ensures LeastMultipleFrom(RoundUp(w, x, y), x, y) <==> x + (y - 1) < Pow2(w)
  {
    var t := x + (y - 1);
    if t < Pow2(w) {
      WrapFits(w, t);
      LeastMultipleByDivision(x, y);
      QuotientTimesDivisor(t, y);
      WrapFits(w, t / y * y);
    } else {
      ModOfSum(t, Pow2(w));
      QuotientTimesDivisor(t - Pow2(w), y);
      WrapFits(w, (t - Pow2(w)) / y * y);
      assert RoundUp(w, x, y) < x;
    }
  }

  lemma QuotientTimesDivisor(t: nat, y: nat)
    requires y > 0
    ensures 0 <= t / y * y <= t
  {
  }

  // ---------------------------------------------------------------- modular arithmetic

  /** x + y modulo the bound, for in-range operands, exactly when their sum fits the word. */
  lemma ModAddExact(w: nat, x: nat, y: nat, bound: nat)
    requires x < bound && y < bound < Pow2(w)
    ensures ModAdd(w, x, y, bound) == (x + y) % bound <==> x + y < Pow2(w)
  {
    if x + y >= bound { ModOfSum(x + y, bound); } else { ModIdentity(x + y, bound); }
    if x + y < Pow2(w) {
      WrapFits(w, x + y);
      if x + y >= bound { WrapFits(w, x + y - bound); }
    } else {
      ModOfSum(x + y, Pow2(w));
    }
  }

  /** The signed difference is the word difference read as an int. */
  lemma SignedDifferenceIsWord(w: nat, x: nat, y: nat)
    requires w > 0
    ensures SignedDifference(w, x, y) == AsInt(w, Wrap(w, x - y))
  {
    var p := Pow2(w);
    var d := AsInt(w, x) - AsInt(w, y);
    var q := if x < Pow2(w - 1) then (if y < Pow2(w - 1) then 0 else 1) else (if y < Pow2(w - 1) then -1 else 0);
    assert d == q * p + (x - y);
    ModIgnoresMultiples(x - y, q, p);
  }

  /** It is the true difference exactly when that fits the int. */
  lemma SignedDifferenceExact(w: nat, x: nat, y: nat)
    requires w > 0 && x < Pow2(w) && y < Pow2(w)
    ensures SignedDifference(w, x, y) == x - y <==> 0 - Pow2(w - 1) <= x - y < Pow2(w - 1)
    ensures SignedDifference(w, x, y) < 0 <==>
            (if x < y then x - y >= 0 - Pow2(w - 1) else x - y >= Pow2(w - 1))
  {
    SignedDifferenceIsWord(w, x, y);
    if x < y { ModOfDifference(x - y, Pow2(w)); } else { WrapFits(w, x - y); }
  }

  /** x - y modulo the bound exactly when the true difference fits the int; so always for bounds
      up to 2^(w-1), and also for operands on opposite sides of the sign bit that lie close. */
  lemma ModSubExact(w: nat, x: nat, y: nat, bound: nat)
    requires w > 0 && x < bound && y < bound < Pow2(w)
    ensures ModSub(w, x, y, bound) == (x - y) % bound <==> 0 - Pow2(w - 1) <= x - y < Pow2(w - 1)
    ensures ModSub(w, x, y, bound) == (x - y) % bound ==> ModSub(w, x, y, bound) < bound
  {
    SignedDifferenceExact(w, x, y);
    if x < y {
      ModOfDifference(x - y, Pow2(w));
      ModOfSum(x - y + Pow2(w) + bound, Pow2(w));
      ModOfDifference(x - y, bound);
    } else {
      WrapFits(w, x - y);
      ModIdentity(x - y, bound);
      if x - y + bound < Pow2(w) {
        WrapFits(w, x - y + bound);
      } else {
        ModOfSum(x - y + bound, Pow2(w));
      }
    }
  }

  lemma ModIncDecExact(w: nat, x: nat, bound: nat)
    requires x < bound < Pow2(w)
    ensures ModInc(w, x, bound) == (x + 1) % bound
    ensures ModDec(w, x, bound) == (x - 1) % bound
  {
    WrapFits(w, bound - 1);
    if x + 1 < bound { WrapFits(w, x + 1); ModIdentity(x + 1, bound); } else { ModOfSum(x + 1, bound); }
    if x > 0 { WrapFits(w, x - 1); ModIdentity(x - 1, bound); } else { ModOfDifference(x - 1, bound); }
  }

  lemma ModAddThenSub(w: nat, x: nat, y: nat, bound: nat)
    requires w > 0 && x < bound && y < bound <= Pow2(w - 1)
    ensures ModSub(w, ModAdd(w, x, y, bound), y, bound) == x
  {
    ModAddExact(w, x, y, bound);
    var s := ModAdd(w, x, y, bound);
    if x + y >= bound {
      ModOfSum(x + y, bound);
      ModOfDifference(s - y, bound);
    } else {
      ModIdentity(x + y, bound);
      ModIdentity(x, bound);
    }
    ModSubExact(w, s, y, bound);
  }

  lemma ModSubThenAdd(w: nat, x: nat, y: nat, bound: nat)
    requires w > 0 && x < bound && y < bound <= Pow2(w - 1)
    ensures ModAdd(w, ModSub(w, x, y, bound), y, bound) == x
  {
    ModSubExact(w, x, y, bound);
    var d := ModSub(w, x, y, bound);
    if x < y {
      ModOfDifference(x - y, bound);
      ModOfSum(d + y, bound);
    } else {
      ModIdentity(x - y, bound);
      ModIdentity(x, bound);
    }
    ModAddExact(w, d, y, bound);
  }

  /** Adding then subtracting, and subtracting then adding, give back the operand. */
  lemma ModAddSubInverse(w: nat, x: nat, y: nat, bound: nat)
    requires w > 0 && x < bound && y < bound <= Pow2(w - 1)
    ensures ModSub(w, ModAdd(w, x, y, bound), y, bound) == x
    ensures ModAdd(w, ModSub(w, x, y, bound), y, bound) == x
  {
    ModAddThenSub(w, x, y, bound);
    ModSubThenAdd(w, x, y, bound);
  }

  lemma ModIncDecInverse(w: nat, x: nat, bound: nat)
    requires x < bound < Pow2(w)
    ensures ModDec(w, ModInc(w, x, bound), bound) == x
    ensures ModInc(w, ModDec(w, x, bound), bound) == x
  {
    WrapFits(w, bound - 1);
    WrapFits(w, x);
    if x + 1 < bound { WrapFits(w, x + 1); }
    if x > 0 { WrapFits(w, x - 1); }
  }

  /** The mask forms reduce modulo 2^k whatever the operands, wrapped differences included. */
  lemma MaskFormsAreModular(w: nat, k: nat, x: nat, y: nat)
    requires k <= w
    ensures ModAddPow2(w, x, y, Pow2(k)) == (x + y) % Pow2(k)
    ensures ModSubPow2(w, x, y, Pow2(k)) == (x - y) % Pow2(k)
    ensures ModIncPow2(w, x, Pow2(k)) == (x + 1) % Pow2(k)
    ensures ModDecPow2(w, x, Pow2(k)) == (x - 1) % Pow2(k)
  {
    Pow2Monotone(k, w);
    WrapFits(w, Pow2(k) - 1);
    AndMaskIsMod(Wrap(w, x + y), k);
    AndMaskIsMod(Wrap(w, x - y), k);
    AndMaskIsMod(Wrap(w, x + 1), k);
    AndMaskIsMod(Wrap(w, x - 1), k);
    Pow2Add(k, w - k);
    ModTower(x + y, Pow2(k), Pow2(w - k));
    ModTower(x - y, Pow2(k), Pow2(w - k));
    ModTower(x + 1, Pow2(k), Pow2(w - k));
    ModTower(x - 1, Pow2(k), Pow2(w - k));
  }

  /** For a power-of-two bound and in-range operands the fast forms are the MUX forms. */
  lemma MaskFormsRefineMux(w: nat, k: nat, x: nat, y: nat)
    requires k < w && x < Pow2(k) && y < Pow2(k)
    ensures ModAddPow2(w, x, y, Pow2(k)) == ModAdd(w, x, y, Pow2(k))
    ensures ModSubPow2(w, x, y, Pow2(k)) == ModSub(w, x, y, Pow2(k))
    ensures ModIncPow2(w, x, Pow2(k)) == ModInc(w, x, Pow2(k))
    ensures ModDecPow2(w, x, Pow2(k)) == ModDec(w, x, Pow2(k))
  {
    Pow2Monotone(k, w - 1);
    MaskFormsAreModular(w, k, x, y);
    ModAddExact(w, x, y, Pow2(k));
    ModSubExact(w, x, y, Pow2(k));
    ModIncDecExact(w, x, Pow2(k));
  }
}
