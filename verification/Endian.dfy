/** The byte-order operations of bcmendian.h and the unaligned accessors of bcmutils.h. */
module Endian {
  import opened Bits

  // ---------------------------------------------------------------- swaps of values

  function BcmSwap16(val: nat): nat {
    Or(Shl(And(val, 0x00ff), 8), Shr(And(val, 0xff00), 8))
  }

  function BcmSwap32(val: nat): nat {
    Or(Or(Or(Shl(And(val, 0x000000ff), 24),
             Shl(And(val, 0x0000ff00), 8)),
          Shr(And(val, 0x00ff0000), 8)),
       Shr(And(val, 0xff000000), 24))
  }

  function BcmSwap32By16(val: nat): nat {
    Or(Shl(And(val, 0x0000ffff), 16), Shr(And(val, 0xffff0000), 16))
  }

  /** The two bytes of a 16-bit value. */
  function Word16(hi: byte, lo: byte): nat { 256 * hi + lo }

  function Word32(b3: byte, b2: byte, b1: byte, b0: byte): nat {
    0x100_0000 * b3 + 0x1_0000 * b2 + 256 * b1 + b0
  }

  /** Splitting a word into its bytes. */
  lemma Word32Splits(val: nat)
    requires val < 0x1_0000_0000
    ensures val / 0x100_0000 < 256
    ensures val == Word32(val / 0x100_0000, val / 0x1_0000 % 256, val / 256 % 256, val % 256)
  {
    var q1, r0 := val / 256, val % 256;
    var q2, r1 := q1 / 256, q1 % 256;
    var q3, r2 := q2 / 256, q2 % 256;
    DivModUnique(val, 0x1_0000, q2, 256 * r1 + r0);
    DivModUnique(val, 0x100_0000, q3, 0x1_0000 * r2 + 256 * r1 + r0);
  }

  lemma Word32Bytes(b3: byte, b2: byte, b1: byte, b0: byte)
    ensures var v := Word32(b3, b2, b1, b0);
      v < 0x1_0000_0000 && v / 0x100_0000 == b3 && v / 0x1_0000 % 256 == b2 && v / 256 % 256 == b1 && v % 256 == b0
  {
    var v := Word32(b3, b2, b1, b0);
    DivModUnique(v, 256, 0x1_0000 * b3 + 256 * b2 + b1, b0);
    DivModUnique(v / 256, 256, 256 * b3 + b2, b1);
    DivModUnique(v, 0x1_0000, 256 * b3 + b2, 256 * b1 + b0);
    DivModUnique(256 * b3 + b2, 256, b3, b2);
    DivModUnique(v, 0x100_0000, b3, 0x1_0000 * b2 + 256 * b1 + b0);
  }

  /** A mask of eight ones at bit `s` selects that byte in place. */
  lemma ByteField(val: nat, s: nat, mask: nat)
    requires mask == 255 * Pow2(s)
    ensures And(val, mask) == val / Pow2(s) % 256 * Pow2(s)
  {
    Pow2Values();
    AndFieldIsSlice(val, 8, s);
  }

  /** The four byte fields that the masks select. */
  lemma ByteFields(b3: byte, b2: byte, b1: byte, b0: byte)
    ensures var v := Word32(b3, b2, b1, b0);
      && And(v, 0xff) == b0 && And(v, 0xff00) == b1 * 256
      && And(v, 0xff0000) == b2 * 0x1_0000 && And(v, 0xff000000) == b3 * 0x100_0000
  {
    var v := Word32(b3, b2, b1, b0);
    Word32Bytes(b3, b2, b1, b0);
    Pow2Values();
    ByteField(v, 0, 0xff);
    ByteField(v, 8, 0xff00);
    ByteField(v, 16, 0xff0000);
    ByteField(v, 24, 0xff000000);
    ModIdentity(b3, 256);
  }

  lemma Swap16Exchanges(hi: byte, lo: byte)
    ensures BcmSwap16(Word16(hi, lo)) == Word16(lo, hi)
    ensures BcmSwap16(256 * hi + lo) == 256 * lo + hi
  {
    var v := Word16(hi, lo);
    assert v == Word32(0, 0, hi, lo);
    assert And(v, 0x00ff) == lo && And(v, 0xff00) == hi * 256 by { ByteFields(0, 0, hi, lo); }
    ShlByte(lo);
    ShrByte(hi);
    assert BcmSwap16(v) == Or(Shl(lo, 8), hi);
    Pow2Values();
    OrDisjointIsSum(lo, hi, 8);
  }

  lemma ShlByte(x: nat)
    ensures Shl(x, 8) == x * 256 && Shl(x, 16) == x * 0x1_0000 && Shl(x, 24) == x * 0x100_0000
  {
    Pow2Values();
  }

  lemma ShrByte(x: nat)
    ensures Shr(x * 256, 8) == x && Shr(x * 0x1_0000, 8) == x * 256 && Shr(x * 0x100_0000, 24) == x
    ensures Shr(x * 0x1_0000, 16) == x
  {
    Pow2Values();
    DivModUnique(x * 256, 256, x, 0);
    DivModUnique(x * 0x1_0000, 256, x * 256, 0);
    DivModUnique(x * 0x1_0000, 0x1_0000, x, 0);
    DivModUnique(x * 0x100_0000, 0x100_0000, x, 0);
  }

  /** Joining fields that do not overlap is adding them. */
  lemma JoinBytes(b3: byte, b2: byte, b1: byte, b0: byte)
    ensures Or(Or(Or(b3 * 0x100_0000, b2 * 0x1_0000), b1 * 256), b0) == Word32(b3, b2, b1, b0)
  {
    Pow2Values();
    ShlByte(b3);
    OrDisjointIsSum(b3, b2 * 0x1_0000, 24);
    ShlByte(256 * b3 + b2);
    OrDisjointIsSum(256 * b3 + b2, b1 * 256, 16);
    ShlByte(0x1_0000 * b3 + 256 * b2 + b1);
    OrDisjointIsSum(0x1_0000 * b3 + 256 * b2 + b1, b0, 8);
  }

  lemma Swap32Reverses(b3: byte, b2: byte, b1: byte, b0: byte)
    ensures BcmSwap32(Word32(b3, b2, b1, b0)) == Word32(b0, b1, b2, b3)
    ensures BcmSwap32(0x100_0000 * b3 + 0x1_0000 * b2 + 256 * b1 + b0)
            == 0x100_0000 * b0 + 0x1_0000 * b1 + 256 * b2 + b3
  {
    var v := Word32(b3, b2, b1, b0);
    ByteFields(b3, b2, b1, b0);
    assert BcmSwap32(v) == Or(Or(Or(Shl(b0, 24), Shl(b1 * 256, 8)), Shr(b2 * 0x1_0000, 8)), Shr(b3 * 0x100_0000, 24));
    assert Shl(b0, 24) == b0 * 0x100_0000 && Shl(b1 * 256, 8) == b1 * 0x1_0000 by { ShlByte(b0); ShlByte(b1 * 256); }
    assert Shr(b2 * 0x1_0000, 8) == b2 * 256 && Shr(b3 * 0x100_0000, 24) == b3 by { ShrByte(b2); ShrByte(b3); }
    JoinBytes(b0, b1, b2, b3);
  }

  /** The two halves change places. */
  lemma Swap32By16Exchanges(hi: nat, lo: nat)
    requires hi < 0x1_0000 && lo < 0x1_0000
    ensures BcmSwap32By16(hi * 0x1_0000 + lo) == lo * 0x1_0000 + hi
  {
    var v := hi * 0x1_0000 + lo;
    DivModUnique(v, 0x1_0000, hi, lo);
    ModIdentity(hi, 0x1_0000);
    assert And(v, 0xffff) == lo && And(v, 0xffff0000) == hi * 0x1_0000 by {
      Pow2Values();
      AndMaskIsMod(v, 16);
      AndFieldIsSlice(v, 16, 16);
    }
    ShlByte(lo);
    ShrByte(hi);
    Pow2Values();
    OrDisjointIsSum(lo, hi, 16);
  }

  /** Each swap undoes itself. */
  lemma Swap32Involution(val: nat)
    requires val < 0x1_0000_0000
    ensures BcmSwap32(BcmSwap32(val)) == val
  {
    var b3, b2, b1, b0 := val / 0x100_0000, val / 0x1_0000 % 256, val / 256 % 256, val % 256;
    Word32Splits(val);
    Swap32Reverses(b3, b2, b1, b0);
    Swap32Reverses(b0, b1, b2, b3);
  }

  lemma Swap16Involution(val: nat)
    requires val < 0x1_0000
    ensures BcmSwap16(BcmSwap16(val)) == val
  {
    Swap16Exchanges(val / 256, val % 256);
    Swap16Exchanges(val % 256, val / 256);
  }

  /** Reversing a word is exchanging its halves and swapping each of them. */
  lemma SwapsCompose(b3: byte, b2: byte, b1: byte, b0: byte)
    ensures BcmSwap32(Word32(b3, b2, b1, b0)) ==
            BcmSwap16(Word16(b1, b0)) * 0x1_0000 + BcmSwap16(Word16(b3, b2))
  {
    Swap32Reverses(b3, b2, b1, b0);
    Swap16Exchanges(b3, b2);
    Swap16Exchanges(b1, b0);
  }

  // ---------------------------------------------------------------- unaligned loads

  function Ltoh16Ua(b: seq<byte>, o: nat): nat
    requires o + 2 <= |b|
  {
    Shl(b[o + 1], 8) + b[o]
  }

  function Ntoh16Ua(b: seq<byte>, o: nat): nat
    requires o + 2 <= |b|
  {
    Shl(b[o], 8) + b[o + 1]
  }

  function Ltoh32Ua(b: seq<byte>, o: nat): nat
    requires o + 4 <= |b|
  {
    Shl(b[o + 3], 24) + Shl(b[o + 2], 16) + Shl(b[o + 1], 8) + b[o]
  }

  function Ntoh32Ua(b: seq<byte>, o: nat): nat
    requires o + 4 <= |b|
  {
    Shl(b[o], 24) + Shl(b[o + 1], 16) + Shl(b[o + 2], 8) + b[o + 3]
  }

  /** load32_ua of bcmutils.h, which joins with `|`, in either host order. */
  function Load32Ua(bigEndian: bool, b: seq<byte>, o: nat): nat
    requires o + 4 <= |b|
  {
    if bigEndian then Or(Or(Or(Shl(b[o], 24), Shl(b[o + 1], 16)), Shl(b[o + 2], 8)), b[o + 3])
    else Or(Or(Or(Shl(b[o + 3], 24), Shl(b[o + 2], 16)), Shl(b[o + 1], 8)), b[o])
  }

  function Load16Ua(bigEndian: bool, b: seq<byte>, o: nat): nat
    requires o + 2 <= |b|
  {
    if bigEndian then Or(Shl(b[o], 8), b[o + 1]) else Or(Shl(b[o + 1], 8), b[o])
  }

  lemma LoadsAsWords(b: seq<byte>, o: nat)
    requires o + 4 <= |b|
    ensures Ltoh32Ua(b, o) == Word32(b[o + 3], b[o + 2], b[o + 1], b[o])
    ensures Ntoh32Ua(b, o) == Word32(b[o], b[o + 1], b[o + 2], b[o + 3])
  {
    Pow2Values();
  }

  lemma Loads16AsWords(b: seq<byte>, o: nat)
    requires o + 2 <= |b|
    ensures Ltoh16Ua(b, o) == Word16(b[o + 1], b[o])
    ensures Ntoh16Ua(b, o) == Word16(b[o], b[o + 1])
  {
    Pow2Values();
  }

  /** The little-endian loads weigh later bytes more, the network-order loads earlier ones. */
  lemma LoadsExact(b: seq<byte>, o: nat)
    requires o + 4 <= |b|
    ensures Ltoh16Ua(b, o) == b[o] as int + 256 * b[o + 1] as int
    ensures Ntoh16Ua(b, o) == 256 * b[o] as int + b[o + 1] as int
    ensures Ltoh32Ua(b, o) ==
            b[o] as int + 256 * b[o + 1] as int + 0x1_0000 * b[o + 2] as int + 0x100_0000 * b[o + 3] as int
    ensures Ntoh32Ua(b, o) ==
            0x100_0000 * b[o] as int + 0x1_0000 * b[o + 1] as int + 256 * b[o + 2] as int + b[o + 3] as int
  {
    LoadsAsWords(b, o);
    Loads16AsWords(b, o);
  }

  /** Reading the same bytes in the other order is a byte swap. */
  lemma LoadsDifferBySwap(b: seq<byte>, o: nat)
    requires o + 4 <= |b|
    ensures Ntoh32Ua(b, o) == BcmSwap32(Ltoh32Ua(b, o))
    ensures Ntoh16Ua(b, o) == BcmSwap16(Ltoh16Ua(b, o))
  {
    LoadsAsWords(b, o);
    Loads16AsWords(b, o);
    Swap32Reverses(b[o + 3], b[o + 2], b[o + 1], b[o]);
    Swap16Exchanges(b[o + 1], b[o]);
  }

  /** The `|` accessors of bcmutils.h are the `+` accessors of bcmendian.h. */
  lemma LoadUaAgrees(b: seq<byte>, o: nat)
    requires o + 4 <= |b|
    ensures Load32Ua(false, b, o) == Ltoh32Ua(b, o) && Load32Ua(true, b, o) == Ntoh32Ua(b, o)
    ensures Load16Ua(false, b, o) == Ltoh16Ua(b, o) && Load16Ua(true, b, o) == Ntoh16Ua(b, o)
  {
    LoadsAsWords(b, o);
    OrOfShiftedBytes(b[o + 3], b[o + 2], b[o + 1], b[o]);
    OrOfShiftedBytes(b[o], b[o + 1], b[o + 2], b[o + 3]);
    Load16UaAgrees(b, o);
  }

  lemma OrOfShiftedBytes(b3: byte, b2: byte, b1: byte, b0: byte)
    ensures Or(Or(Or(Shl(b3, 24), Shl(b2, 16)), Shl(b1, 8)), b0) == Word32(b3, b2, b1, b0)
  {
    ShlByte(b3);
    ShlByte(b2);
    ShlByte(b1);
    JoinBytes(b3, b2, b1, b0);
  }

  lemma Load16UaAgrees(b: seq<byte>, o: nat)
    requires o + 2 <= |b|
    ensures Load16Ua(false, b, o) == Ltoh16Ua(b, o) == Word16(b[o + 1], b[o])
    ensures Load16Ua(true, b, o) == Ntoh16Ua(b, o) == Word16(b[o], b[o + 1])
  {
    Pow2Values();
    OrDisjointIsSum(b[o], b[o + 1], 8);
    OrDisjointIsSum(b[o + 1], b[o], 8);
  }

  // ---------------------------------------------------------------- unaligned stores

  /** `b` with the bytes at `o` replaced. */
  ghost predicate OnlyChanged(b: seq<byte>, b0: seq<byte>, o: nat, n: nat) {
    |b| == |b0| && forall j :: 0 <= j < |b| && !(o <= j < o + n) ==> b[j] == b0[j]
  }

  lemma StoredFields(val: nat)
    requires val < 0x1_0000_0000
    ensures And(val, 0xff) == val % 256
    ensures And(Shr(val, 8), 0xff) == val / 256 % 256
    ensures And(Shr(val, 16), 0xff) == val / 0x1_0000 % 256
    ensures Shr(val, 24) == val / 0x100_0000 < 256
    ensures Shr(val, 8) == val / 256
  {
    Pow2Values();
    AndMaskIsMod(val, 8);
    AndMaskIsMod(Shr(val, 8), 8);
    AndMaskIsMod(Shr(val, 16), 8);
  }

  method Htol16UaStore(val: nat, bytes: array<byte>, o: nat)
    requires val < 0x1_0000 && o + 2 <= bytes.Length
    modifies bytes
    ensures bytes[o] == val % 256 && bytes[o + 1] == val / 256
    ensures Ltoh16Ua(bytes[..], o) == val && OnlyChanged(bytes[..], old(bytes[..]), o, 2)
    ensures forall j :: 0 <= j < bytes.Length && !(o <= j < o + 2) ==> bytes[j] == old(bytes[j])
  {
    StoredFields(val);
    bytes[o] := And(val, 0xff);
    bytes[o + 1] := Shr(val, 8);
    Loads16AsWords(bytes[..], o);
  }

  method Htol32UaStore(val: nat, bytes: array<byte>, o: nat)
    requires val < 0x1_0000_0000 && o + 4 <= bytes.Length
    modifies bytes
    ensures bytes[o] == val % 256 && bytes[o + 1] == val / 256 % 256
    ensures bytes[o + 2] == val / 0x1_0000 % 256 && bytes[o + 3] == val / 0x100_0000
    ensures Ltoh32Ua(bytes[..], o) == val && OnlyChanged(bytes[..], old(bytes[..]), o, 4)
    ensures forall j :: 0 <= j < bytes.Length && !(o <= j < o + 4) ==> bytes[j] == old(bytes[j])
  {
    StoredFields(val);
    bytes[o] := And(val, 0xff);
    bytes[o + 1] := And(Shr(val, 8), 0xff);
    bytes[o + 2] := And(Shr(val, 16), 0xff);
    bytes[o + 3] := Shr(val, 24);
    LoadsAsWords(bytes[..], o);
    Word32Splits(val);
  }

  method Hton16UaStore(val: nat, bytes: array<byte>, o: nat)
    requires val < 0x1_0000 && o + 2 <= bytes.Length
    modifies bytes
    ensures bytes[o] == val / 256 && bytes[o + 1] == val % 256
    ensures Ntoh16Ua(bytes[..], o) == val && OnlyChanged(bytes[..], old(bytes[..]), o, 2)
    ensures forall j :: 0 <= j < bytes.Length && !(o <= j < o + 2) ==> bytes[j] == old(bytes[j])
  {
    StoredFields(val);
    bytes[o + 1] := And(val, 0xff);
    bytes[o] := Shr(val, 8);
    Loads16AsWords(bytes[..], o);
  }

  method Hton32UaStore(val: nat, bytes: array<byte>, o: nat)
    requires val < 0x1_0000_0000 && o + 4 <= bytes.Length
    modifies bytes
    ensures bytes[o + 3] == val % 256 && bytes[o + 2] == val / 256 % 256
    ensures bytes[o + 1] == val / 0x1_0000 % 256 && bytes[o] == val / 0x100_0000
    ensures Ntoh32Ua(bytes[..], o) == val && OnlyChanged(bytes[..], old(bytes[..]), o, 4)
    ensures forall j :: 0 <= j < bytes.Length && !(o <= j < o + 4) ==> bytes[j] == old(bytes[j])
  {
    StoredFields(val);
    bytes[o + 3] := And(val, 0xff);
    bytes[o + 2] := And(Shr(val, 8), 0xff);
    bytes[o + 1] := And(Shr(val, 16), 0xff);
    bytes[o] := Shr(val, 24);
    LoadsAsWords(bytes[..], o);
    Word32Splits(val);
  }

  // ---------------------------------------------------------------- swapping a buffer

  /** The other position of the pair that `j` is in. */
  function Partner(j: nat): (p: nat)
    ensures forall n: nat :: j < 2 * n ==> p < 2 * n
  {
    if j % 2 == 0 then j + 1 else j - 1
  }

  /** `s` with the bytes of each of its first `n` pairs exchanged. */
  function SwapPairs(s: seq<byte>, n: nat): (r: seq<byte>)
    requires 2 * n <= |s|
    ensures |r| == |s|
    ensures forall j: nat :: j < |s| ==> r[j] == if j < 2 * n then s[Partner(j)] else s[j]
  {
    seq<byte>(|s|, j requires 0 <= j < |s| => if j < 2 * n then s[Partner(j)] else s[j])
  }

  /** Little-endian loads of the swapped buffer are big-endian loads of the original, the rest
      is untouched, and swapping twice restores the buffer. */
  lemma SwapPairsConverts(s: seq<byte>, n: nat)
    requires 2 * n <= |s|
    ensures forall i :: 0 <= i < n ==> Ltoh16Ua(SwapPairs(s, n), 2 * i) == Ntoh16Ua(s, 2 * i)
    ensures SwapPairs(s, n)[2 * n..] == s[2 * n..]
    ensures SwapPairs(SwapPairs(s, n), n) == s
  {
    forall i | 0 <= i < n ensures Ltoh16Ua(SwapPairs(s, n), 2 * i) == Ntoh16Ua(s, 2 * i) {
      SwappedPairLoads(s, n, i);
    }
    SwapPairsTwice(s, n);
  }

  lemma SwappedPair(s: seq<byte>, n: nat, i: nat)
    requires 2 * n <= |s| && i < n
    ensures SwapPairs(s, n)[2 * i] == s[2 * i + 1] && SwapPairs(s, n)[2 * i + 1] == s[2 * i]
  {
    assert Partner(2 * i) == 2 * i + 1 && Partner(2 * i + 1) == 2 * i;
  }

  lemma SwappedPairLoads(s: seq<byte>, n: nat, i: nat)
    requires 2 * n <= |s| && i < n
    ensures Ltoh16Ua(SwapPairs(s, n), 2 * i) == Ntoh16Ua(s, 2 * i)
  {
    SwappedPair(s, n, i);
    Loads16AsWords(SwapPairs(s, n), 2 * i);
    Loads16AsWords(s, 2 * i);
  }

  lemma SwapPairsTwice(s: seq<byte>, n: nat)
    requires 2 * n <= |s|
    ensures SwapPairs(SwapPairs(s, n), n) == s
  {
    forall j: nat | j < |s| ensures SwapPairs(SwapPairs(s, n), n)[j] == s[j] {
      SwappedTwiceAt(s, n, j);
    }
  }

  lemma SwappedTwiceAt(s: seq<byte>, n: nat, j: nat)
    requires 2 * n <= |s| && j < |s|
    ensures SwapPairs(SwapPairs(s, n), n)[j] == s[j]
  {
    if j < 2 * n {
      var p := Partner(j);
      PartnerTwice(j);
      assert SwapPairs(s, n)[p] == s[j];
    }
  }

  lemma PartnerTwice(j: nat)
    ensures Partner(Partner(j)) == j
  {
  }

  method StoreHost16(buf: array<byte>, o: nat, val: nat, bigEndian: bool)
    requires val < 0x1_0000 && o + 2 <= buf.Length
    modifies buf
    ensures Load16Ua(bigEndian, buf[..], o) == val && OnlyChanged(buf[..], old(buf[..]), o, 2)
  {
    if bigEndian { Hton16UaStore(val, buf, o); } else { Htol16UaStore(val, buf, o); }
    Load16UaAgrees(buf[..], o);
  }

  lemma Word16Injective(hi: byte, lo: byte, hi2: byte, lo2: byte)
    ensures Word16(hi, lo) == Word16(hi2, lo2) ==> hi == hi2 && lo == lo2
  {
  }

  /** Swapping the value of a pair exchanges its two bytes, whatever the host order. */
  lemma HostSwapExchanges(bigEndian: bool, b: seq<byte>, c: seq<byte>, o: nat)
    requires o + 2 <= |b| && o + 2 <= |c|
    requires Load16Ua(bigEndian, c, o) == BcmSwap16(Load16Ua(bigEndian, b, o))
    ensures c[o] == b[o + 1] && c[o + 1] == b[o]
  {
    Load16UaAgrees(b, o);
    Load16UaAgrees(c, o);
    if bigEndian {
      Swap16Exchanges(b[o], b[o + 1]);
      Word16Injective(c[o], c[o + 1], b[o + 1], b[o]);
    } else {
      Swap16Exchanges(b[o + 1], b[o]);
      Word16Injective(c[o + 1], c[o], b[o], b[o + 1]);
    }
  }

  /** bcmswap16_buf: `len` bytes of 16-bit values in host order, `buf` pointing at the first. */
  method BcmSwap16Buf(buf: array<byte>, len: nat, bigEndian: bool)
    requires 2 * (len / 2) <= buf.Length
    modifies buf
    ensures buf[..] == SwapPairs(old(buf[..]), len / 2)
    ensures forall i :: 0 <= i < len / 2 ==>
      buf[2 * i] == old(buf[2 * i + 1]) && buf[2 * i + 1] == old(buf[2 * i])
    ensures forall j :: 2 * (len / 2) <= j < buf.Length ==> buf[j] == old(buf[j])
  {
    ghost var was := buf[..];
    var n := len / 2;
    var p := 0;
    ghost var k: nat := 0;
    while n > 0
      invariant n >= 0 && n + k == len / 2 && p == 2 * k && |was| == buf.Length
      invariant buf[..] == SwapPairs(was, k)
      decreases n
    {
      n := n - 1;
      ghost var before := buf[..];
      var v := Load16Ua(bigEndian, buf[..], p);
      Swap16Bounded(bigEndian, buf[..], p);
      StoreHost16(buf, p, BcmSwap16(v), bigEndian);
      HostSwapExchanges(bigEndian, before, buf[..], p);
      NextPair(was, k, before, buf[..]);
      p := p + 2;
      k := k + 1;
    }
    forall i | 0 <= i < len / 2 ensures buf[2 * i] == was[2 * i + 1] && buf[2 * i + 1] == was[2 * i] {
      SwappedPair(was, len / 2, i);
      assert buf[2 * i] == buf[..][2 * i] && buf[2 * i + 1] == buf[..][2 * i + 1];
    }
  }

  /** Exchanging pair k after the first k pairs. */
  lemma NextPair(was: seq<byte>, k: nat, b: seq<byte>, c: seq<byte>)
    requires 2 * k + 2 <= |was| && b == SwapPairs(was, k)
    requires OnlyChanged(c, b, 2 * k, 2) && c[2 * k] == b[2 * k + 1] && c[2 * k + 1] == b[2 * k]
    ensures c == SwapPairs(was, k + 1)
  {
    assert Partner(2 * k) == 2 * k + 1 && Partner(2 * k + 1) == 2 * k;
  }

  lemma Swap16Bounded(bigEndian: bool, b: seq<byte>, o: nat)
    requires o + 2 <= |b|
    ensures BcmSwap16(Load16Ua(bigEndian, b, o)) < 0x1_0000
  {
    Load16UaAgrees(b, o);
    Swap16Exchanges(b[o], b[o + 1]);
    Swap16Exchanges(b[o + 1], b[o]);
  }
}
