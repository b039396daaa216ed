/** The bit map macros of bcmutils.h: a byte array as a set of bit numbers. */
module Bitmap {
  import opened Bits

  const NBBY: nat := 8

  /** isset is a non-zero test; isclr is its negation. */
  predicate IsSet(a: seq<byte>, i: nat)
    requires i / NBBY < |a|
  {
    And(a[i / NBBY], Shl(1, i % NBBY)) != 0
  }

  predicate IsClr(a: seq<byte>, i: nat): (r: bool)
    requires i / NBBY < |a|
    ensures r <==> i !in Members(a)
  {
    And(a[i / NBBY], Shl(1, i % NBBY)) == 0
  }

  /** A byte with bit `k` set: |= 1 << k. */
  function WithBit(x: byte, k: nat): (r: byte)
    requires k < 8
  {
    Pow2Values();
    Pow2Strict(k, 8);
    OrBounded(8, x, Shl(1, k));
    Or(x, Shl(1, k))
  }

  /** A byte with bit `k` cleared: &= ~(1 << k), the complement taken on a 32-bit int. */
  function WithoutBit(x: byte, k: nat): (r: byte)
    requires k < 8
  {
    Pow2Strict(k, 32);
    AndBounded(x, Not(32, Shl(1, k)));
    And(x, Not(32, Shl(1, k)))
  }

  function SetBitIn(a: seq<byte>, i: nat): (r: seq<byte>)
    requires i / NBBY < |a|
    ensures |r| == |a|
  {
    var x: byte := WithBit(a[i / NBBY], i % NBBY);
    a[..i / NBBY] + [x] + a[i / NBBY + 1..]
  }

  function ClrBitIn(a: seq<byte>, i: nat): (r: seq<byte>)
    requires i / NBBY < |a|
    ensures |r| == |a|
  {
    var x: byte := WithoutBit(a[i / NBBY], i % NBBY);
    a[..i / NBBY] + [x] + a[i / NBBY + 1..]
  }

  method SetBit(a: array<byte>, i: nat)
    requires i / NBBY < a.Length
    modifies a
    ensures a[..] == SetBitIn(old(a[..]), i)
    ensures Members(a[..]) == Members(old(a[..])) + {i}
  {
    SetBitAddsMember(a[..], i);
    a[i / NBBY] := WithBit(a[i / NBBY], i % NBBY);
  }

  method ClrBit(a: array<byte>, i: nat)
    requires i / NBBY < a.Length
    modifies a
    ensures a[..] == ClrBitIn(old(a[..]), i)
    ensures Members(a[..]) == Members(old(a[..])) - {i}
  {
    ClrBitRemovesMember(a[..], i);
    a[i / NBBY] := WithoutBit(a[i / NBBY], i % NBBY);
  }

  // ---------------------------------------------------------------- the set of set bits

  lemma OneBitMask(x: nat, k: nat)
    ensures Shl(1, k) == Pow2(k)
    ensures And(x, Shl(1, k)) != 0 <==> Bit(x, k)
  {
    AndPow2IsBit(x, k);
  }

  lemma IndexParts(a: nat, i: nat)
    ensures i / NBBY < a <==> i < NBBY * a
  {
  }

  /** The bit numbers that are set. */
  ghost function Members(a: seq<byte>): (r: set<nat>)
    ensures forall i: nat :: i in r <==> i / NBBY < |a| && IsSet(a, i)
  {
    MembersBelow(a, NBBY * |a|)
  }

  ghost function MembersBelow(a: seq<byte>, n: nat): (r: set<nat>)
    requires n <= NBBY * |a|
    ensures forall i: nat :: i in r <==> i < n && i / NBBY < |a| && IsSet(a, i)
  {
    if n == 0 then {}
    else
      IndexParts(|a|, n - 1);
      MembersBelow(a, n - 1) + (if IsSet(a, n - 1) then {n - 1} else {})
  }

  /** Bit number i is bit i % 8, counted from the low end, of byte i / 8. */
  lemma MembersExact(a: seq<byte>, i: nat)
    ensures i in Members(a) <==> i < 8 * |a| && a[i / 8] / Pow2(i % 8) % 2 == 1
  {
    IndexParts(|a|, i);
    if i / NBBY < |a| {
      OneBitMask(a[i / NBBY], i % NBBY);
      BitIsQuotientParity(a[i / NBBY], i % NBBY);
    }
  }

  /** Setting or clearing one bit changes the test of that bit only. */
  lemma OneBitChanges(x: byte, k: nat, j: nat)
    requires k < 8 && j < 8
    ensures And(WithBit(x, k), Shl(1, j)) != 0 <==> j == k || And(x, Shl(1, j)) != 0
    ensures And(WithoutBit(x, k), Shl(1, j)) != 0 <==> j != k && And(x, Shl(1, j)) != 0
  {
    OneBitMask(x, j);
    OneBitMask(WithBit(x, k), j);
    OneBitMask(WithoutBit(x, k), j);
    OneBitMask(x, k);
    BitOfOr(x, Shl(1, k), j);
    BitOfPow2(k, j);
    Pow2Strict(k, 32);
    BitOfAnd(x, Not(32, Shl(1, k)), j);
    BitOfNot(32, Shl(1, k), j);
  }

  lemma SetBitAddsMember(a: seq<byte>, i: nat)
    requires i / NBBY < |a|
    ensures Members(SetBitIn(a, i)) == Members(a) + {i}
  {
    forall j: nat | j / NBBY < |a| ensures IsSet(SetBitIn(a, i), j) <==> j == i || IsSet(a, j) {
      if j / NBBY == i / NBBY { OneBitChanges(a[i / NBBY], i % NBBY, j % NBBY); }
    }
  }

  lemma ClrBitRemovesMember(a: seq<byte>, i: nat)
    requires i / NBBY < |a|
    ensures Members(ClrBitIn(a, i)) == Members(a) - {i}
  {
    forall j: nat | j / NBBY < |a| ensures IsSet(ClrBitIn(a, i), j) <==> j != i && IsSet(a, j) {
      if j / NBBY == i / NBBY { OneBitChanges(a[i / NBBY], i % NBBY, j % NBBY); }
    }
  }

  /** A byte array holds nothing but its set: equal members mean equal bytes. */
  lemma MembersDetermineBytes(a: seq<byte>, b: seq<byte>)
    requires |a| == |b| && Members(a) == Members(b)
    ensures a == b
  {
    forall p | 0 <= p < |a| ensures a[p] == b[p] {
      forall k: nat | k < 8 ensures Bit(a[p], k) <==> Bit(b[p], k) {
        var i := NBBY * p + k;
        assert i / NBBY == p && i % NBBY == k;
        OneBitMask(a[p], k);
        OneBitMask(b[p], k);
        assert i in Members(a) <==> i in Members(b);
      }
      Pow2Values();
      WordsEqualByBits(8, a[p], b[p]);
    }
  }

  // ---------------------------------------------------------------- runs

  datatype BitOp = Put(i: nat) | Drop(i: nat)

  function RunSet(s: set<nat>, ops: seq<BitOp>): set<nat>
    decreases |ops|
  {
    if ops == [] then s
    else RunSet(match ops[0] case Put(i) => s + {i} case Drop(i) => s - {i}, ops[1..])
  }

  function RunBytes(a: seq<byte>, ops: seq<BitOp>): (r: seq<byte>)
    requires forall k :: 0 <= k < |ops| ==> ops[k].i / NBBY < |a|
    ensures |r| == |a|
    decreases |ops|
  {
    if ops == [] then a
    else RunBytes(match ops[0] case Put(i) => SetBitIn(a, i) case Drop(i) => ClrBitIn(a, i), ops[1..])
  }

  /** Any sequence of setbit and clrbit is the same sequence of set operations. */
  lemma {:induction false} RunRefinesSet(a: seq<byte>, ops: seq<BitOp>)
    requires forall k :: 0 <= k < |ops| ==> ops[k].i / NBBY < |a|
    ensures Members(RunBytes(a, ops)) == RunSet(Members(a), ops)
    decreases |ops|
  {
    if ops == [] {
    } else {
      match ops[0]
      case Put(i) => SetBitAddsMember(a, i); RunRefinesSet(SetBitIn(a, i), ops[1..]);
      case Drop(i) => ClrBitRemovesMember(a, i); RunRefinesSet(ClrBitIn(a, i), ops[1..]);
    }
  }

  /** The macros applied to an array one after the other. */
  method RunBitmap(a: array<byte>, ops: seq<BitOp>)
    requires forall k :: 0 <= k < |ops| ==> ops[k].i / NBBY < a.Length
    modifies a
    ensures a[..] == RunBytes(old(a[..]), ops)
    ensures Members(a[..]) == RunSet(Members(old(a[..])), ops)
  {
    RunRefinesSet(a[..], ops);
    for n := 0 to |ops|
      invariant RunBytes(a[..], ops[n..]) == RunBytes(old(a[..]), ops)
    {
      assert ops[n..][1..] == ops[n + 1..];
      match ops[n]
      case Put(i) => SetBit(a, i);
      case Drop(i) => ClrBit(a, i);
    }
    assert ops[|ops|..] == [];
  }
}
