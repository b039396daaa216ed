/** find_msbit of bitfuncs.h and the SPINWAIT loop of bcmutils.h. */
module WordLoops {
  import opened Bits
  import WordMacros

  const DB_POW_MASK16: nat := 0xffff0000
  const DB_POW_MASK8: nat := 0x0000ff00
  const DB_POW_MASK4: nat := 0x000000f0
  const DB_POW_MASK2: nat := 0x0000000c
  const DB_POW_MASK1: nat := 0x00000002

  // ---------------------------------------------------------------- find_msbit

  /** Shifting a word of a + b bits right by a leaves a word of b bits. */
  lemma {:induction false} ShrBound(x: nat, a: nat, b: nat)
    requires x < Pow2(a + b)
    ensures Shr(x, a) < Pow2(b)
  {
    if a > 0 {
      HalveDivMod(x, Pow2(a - 1));
      ShrBound(x / 2, a - 1, b);
    }
  }

  lemma {:induction false} ShrPositive(x: nat, k: nat)
    requires x >= Pow2(k)
    ensures Shr(x, k) > 0
  {
    if k > 0 {
      HalveDivMod(x, Pow2(k - 1));
      ShrPositive(x / 2, k - 1);
    }
  }

  lemma {:induction false} ShiftTwice(x: nat, a: nat, b: nat)
    ensures Shr(Shr(x, a), b) == Shr(x, a + b)
  {
    if a == 0 {
      assert Shr(x, 0) == x;
    } else {
      HalveDivMod(x, Pow2(a - 1));
      HalveDivMod(x, Pow2(a + b - 1));
      ShiftTwice(x / 2, a - 1, b);
    }
  }

  /** For a word of 2k bits, the mask of the upper k tests whether any of them is set. */
  lemma UpperHalfTest(x: nat, k: nat, mask: nat)
    requires x < Pow2(2 * k) && mask == Shl(Pow2(k) - 1, k)
    ensures And(x, mask) != 0 <==> x >= Pow2(k)
  {
    var q := Shr(x, k);
    UpperHalfField(x, k);
    ShlIsZero(q, k);
    if x >= Pow2(k) {
      ShrPositive(x, k);
    } else {
      ShrBound(x, k, 0);
    }
  }

  /** Masking the upper half keeps it in place. */
  lemma UpperHalfField(x: nat, k: nat)
    requires x < Pow2(2 * k)
    ensures And(x, Shl(Pow2(k) - 1, k)) == Shl(Shr(x, k), k)
  {
    AndFieldIsSlice(x, k, k);
    ShrBound(x, k, k);
    ModIdentity(Shr(x, k), Pow2(k));
  }

  lemma ShlIsZero(q: nat, k: nat)
    ensures Shl(q, k) == 0 <==> q == 0
  {
    NonzeroMultipleIsLarge(q, Pow2(k));
  }

  /** The window that is left to search: `x` shifted by `msbit` lies below 2^k. */
  ghost predicate Searching(x: nat, temp: nat, msbit: nat, k: nat) {
    temp == Shr(x, msbit) && temp < Pow2(k) && (x > 0 ==> temp > 0)
  }

  /** Whichever half the mask selects, the search goes on in it. */
  lemma HalvingStep(x: nat, temp: nat, msbit: nat, k: nat, mask: nat)
    requires Searching(x, temp, msbit, 2 * k) && mask == Shl(Pow2(k) - 1, k)
    ensures if And(temp, mask) != 0 then Searching(x, Shr(temp, k), msbit + k, k) else Searching(x, temp, msbit, k)
  {
    UpperHalfTest(temp, k, mask);
    if And(temp, mask) != 0 {
      ShiftTwice(x, msbit, k);
      ShrPositive(temp, k);
      ShrBound(temp, k, k);
    }
  }

  /** One halving step of the search. */
  method Halve(x: nat, temp: nat, msbit: nat, k: nat, mask: nat) returns (t: nat, m: nat)
    requires Searching(x, temp, msbit, 2 * k) && mask == Shl(Pow2(k) - 1, k)
    ensures Searching(x, t, m, k)
    ensures And(temp, mask) != 0 ==> t == Shr(temp, k) && m == msbit + k
    ensures And(temp, mask) == 0 ==> t == temp && m == msbit
  {
    HalvingStep(x, temp, msbit, k, mask);
    t, m := temp, msbit;
    if And(temp, mask) != 0 {
      t := Shr(temp, k);
      m := msbit + k;
    }
  }

  /** find_msbit: the index of the most significant one; zero for zero. */
  method FindMsbit(x: nat) returns (msbit: nat)
    requires x < 0x1_0000_0000
    ensures x > 0 ==> Pow2(msbit) <= x < Pow2(msbit + 1)
    ensures x == 0 ==> msbit == 0
    ensures msbit <= 31
  {
    Pow2Values();
    assert Shr(x, 0) == x;
    var tempX := x;
    msbit := 0;
    tempX, msbit := Halve(x, tempX, msbit, 16, DB_POW_MASK16);
    tempX, msbit := Halve(x, tempX, msbit, 8, DB_POW_MASK8);
    tempX, msbit := Halve(x, tempX, msbit, 4, DB_POW_MASK4);
    tempX, msbit := Halve(x, tempX, msbit, 2, DB_POW_MASK2);
    HalvingStep(x, tempX, msbit, 1, DB_POW_MASK1);
    if And(tempX, DB_POW_MASK1) != 0 {
      msbit := msbit + 1;
    }
    if x > 0 { TopBit(x, msbit); } else { assert And(0, DB_POW_MASK1) == 0; }
  }

  lemma TopBit(x: nat, m: nat)
    requires Shr(x, m) == 1
    ensures Pow2(m) <= x < Pow2(m + 1)
  {
    var p := Pow2(m);
    assert x / p * p + x % p == x;
  }

  /** The index is unique, so the bounds say which bit was found. */
  lemma TopBitUnique(x: nat, a: nat, b: nat)
    requires Pow2(a) <= x < Pow2(a + 1) && Pow2(b) <= x < Pow2(b + 1)
    ensures a == b
  {
    if a < b { Pow2Monotone(a + 1, b); }
    if b < a { Pow2Monotone(b + 1, a); }
  }

  // ---------------------------------------------------------------- SPINWAIT

  /** The delays of a bounded spin: up to the first poll that fails, and at most `limit`. */
  function Delays(exp: nat -> bool, from: nat, limit: nat): nat
    decreases limit
  {
    if limit == 0 || !exp(from) then 0 else 1 + Delays(exp, from + 1, limit - 1)
  }

  /** It is the first poll at which the condition is false, or the limit if there is none. */
  lemma {:induction false} DelaysIsFirstFailure(exp: nat -> bool, from: nat, limit: nat)
    ensures Delays(exp, from, limit) <= limit
    ensures forall i: nat :: from <= i < from + Delays(exp, from, limit) ==> exp(i)
    ensures Delays(exp, from, limit) < limit ==> !exp(from + Delays(exp, from, limit))
    decreases limit
  {
    if limit != 0 && exp(from) {
      DelaysIsFirstFailure(exp, from + 1, limit - 1);
    }
  }

  /** SPINWAIT on a `w`-bit countdown; `exp(i)` is the value of the i-th poll. */
  method SpinWait(w: nat, exp: nat -> bool, us: nat) returns (delays: nat)
    requires us < Pow2(w)
    ensures delays == Delays(exp, 0, WordMacros.Wrap(w, us + 9) / 10)
  {
    var countdown := WordMacros.Wrap(w, us + 9);
    ghost var limit := countdown / 10;
    delays := 0;
    while exp(delays) && countdown >= 10
      invariant countdown >= 0 && delays + countdown / 10 == limit
      invariant Delays(exp, 0, limit) == delays + Delays(exp, delays, countdown / 10)
      decreases countdown
    {
      delays := delays + 1;
      countdown := countdown - 10;
    }
  }

  /** The most delays SPINWAIT can make is us / 10 rounded up exactly when us + 9 does not wrap;
      when it does wrap, SPINWAIT does not wait at all. */
  lemma SpinLimitExact(w: nat, us: nat)
    requires us < Pow2(w) && w >= 4
    ensures WordMacros.Wrap(w, us + 9) / 10 == (us + 9) / 10 <==> us + 9 < Pow2(w)
    ensures us + 9 >= Pow2(w) ==> WordMacros.Wrap(w, us + 9) / 10 == 0
  {
    Pow2Values();
    Pow2Monotone(4, w);
    if us + 9 < Pow2(w) {
      WordMacros.WrapFits(w, us + 9);
    } else {
      ModOfSum(us + 9, Pow2(w));
    }
  }
}
