/** A flat byte memory: the map's keys are the addresses currently owned. */
module Memory {
  import opened Bits

  type Mem = map<nat, byte>

  function Load(m: Mem, a: nat): byte { if a in m then m[a] else 0 }

  /** The addresses from `lo` up to, not including, `hi`. */
  function Range(lo: nat, hi: nat): (r: set<nat>)
    ensures forall a :: a in r <==> lo <= a < hi
    decreases hi - lo
  {
    if lo >= hi then {} else {lo} + Range(lo + 1, hi)
  }

  /** The `n` bytes that start at address `lo`. */
  function Slice(m: Mem, lo: nat, n: nat): (s: seq<byte>)
    ensures |s| == n
    ensures forall i :: 0 <= i < n ==> s[i] == Load(m, lo + i)
  {
    seq<byte>(n, i requires 0 <= i => Load(m, lo + i))
  }

  /** `m` after writing `data` at `a`; the set of owned addresses does not change. */
  function Store(m: Mem, a: nat, data: seq<byte>): (r: Mem)
    ensures r.Keys == m.Keys
  {
    map x | x in m :: if a <= x < a + |data| then data[x - a] else m[x]
  }

  /** A newly allocated region with the given (arbitrary) contents. */
  function Region(lo: nat, fill: seq<byte>): (r: Mem)
    ensures forall a :: a in r <==> lo <= a < lo + |fill|
  {
    var area := Range(lo, lo + |fill|);
    map x | x in area :: fill[x - lo]
  }

  ghost predicate Owns(m: Mem, lo: nat, n: nat) {
    forall a: nat :: lo <= a < lo + n ==> a in m
  }

  function WithByte(s: seq<byte>, k: nat, b: byte): seq<byte>
    requires k < |s|
  {
    s[k := b]
  }

  lemma SliceOfStore(m: Mem, a: nat, data: seq<byte>)
    requires Owns(m, a, |data|)
    ensures Slice(Store(m, a, data), a, |data|) == data
  {
  }

  lemma SliceBesideStore(m: Mem, a: nat, data: seq<byte>, lo: nat, n: nat)
    requires lo + n <= a || a + |data| <= lo
    ensures Slice(Store(m, a, data), lo, n) == Slice(m, lo, n)
  {
  }

  lemma SliceOfPoke(m: Mem, lo: nat, n: nat, k: nat, b: byte)
    requires Owns(m, lo, n) && k < n
    ensures Slice(Store(m, lo + k, [b]), lo, n) == WithByte(Slice(m, lo, n), k, b)
  {
  }

  lemma SliceConcat(m: Mem, lo: nat, n: nat, k: nat)
    ensures Slice(m, lo, n + k) == Slice(m, lo, n) + Slice(m, lo + n, k)
  {
  }

  lemma SliceBesideRegion(m: Mem, lo: nat, fill: seq<byte>, a: nat, n: nat)
    requires a + n <= lo || lo + |fill| <= a
    ensures Slice(m + Region(lo, fill), a, n) == Slice(m, a, n)
  {
  }

  /** Two adjacent writes are one. */
  lemma StoreAdjacent(m: Mem, a: nat, first: seq<byte>, second: seq<byte>)
    ensures Store(Store(m, a, first), a + |first|, second) == Store(m, a, first + second)
  {
  }

  /** Adding a region and writing inside it leaves everything outside it alone. */
  lemma SliceBesideInsertion(m: Mem, lo: nat, fill: seq<byte>, at: nat, data: seq<byte>, a: nat, n: nat)
    requires lo <= at && at + |data| <= lo + |fill|
    requires a + n <= lo || lo + |fill| <= a
    ensures Slice(Store(m + Region(lo, fill), at, data), a, n) == Slice(m, a, n)
  {
    SliceBesideStore(m + Region(lo, fill), at, data, a, n);
    SliceBesideRegion(m, lo, fill, a, n);
  }

  lemma InsertionKeepsByte(m: Mem, lo: nat, fill: seq<byte>, at: nat, data: seq<byte>, a: nat)
    requires lo <= at && at + |data| <= lo + |fill|
    requires a in m && !(lo <= a < lo + |fill|)
    ensures a in Store(m + Region(lo, fill), at, data) && Store(m + Region(lo, fill), at, data)[a] == m[a]
  {
  }
}
