/** Every transition of the object stack keeps the invariant. */
module ObstackProofs {
  import opened Bits
  import opened Memory
  import opened Obstack
  import WordMacros

  // ---------------------------------------------------------------- alignment

  /** Clear low bits mean a multiple of mask + 1. */
  lemma AlignedIsMultiple(p: nat, mask: nat)
    requires WordMacros.PowerOfTwo(mask + 1)
    ensures Aligned(p, mask) <==> p % (mask + 1) == 0
  {
    var k: nat :| mask + 1 == Pow2(k);
    AndMaskIsMod(p, k);
  }

  /** The mask rounding yields the least multiple of mask + 1 that is not below p. */
  lemma AlignUpIsLeast(p: nat, mask: nat)
    requires WordMacros.PowerOfTwo(mask + 1)
    ensures WordMacros.LeastMultipleFrom(AlignUp(p, mask), p, mask + 1)
  {
    var k: nat :| mask + 1 == Pow2(k);
    AndMaskIsMod(p + mask, k);
    WordMacros.LeastMultipleByDivision(p, mask + 1);
    QuotientRemainder(p + mask, mask + 1);
  }

  lemma QuotientRemainder(x: nat, d: nat)
    requires d > 0
    ensures x - x % d == x / d * d
  {
  }

  lemma AlignUpExact(p: nat, mask: nat)
    requires WordMacros.PowerOfTwo(mask + 1)
    ensures Aligned(AlignUp(p, mask), mask)
    ensures p <= AlignUp(p, mask) <= p + mask
  {
    AlignUpIsLeast(p, mask);
    AlignedIsMultiple(AlignUp(p, mask), mask);
  }

  /** On words of any width the header's expression is ROUNDUP(p, mask + 1), wrapped or not; it is
      the rounding, the least multiple not below p, exactly when p + mask does not wrap. */
  lemma AlignUpOnWords(w: nat, p: nat, mask: nat)
    requires WordMacros.PowerOfTwo(mask + 1) && p < Pow2(w) && mask + 1 < Pow2(w)
    ensures And(WordMacros.Wrap(w, p + mask), Not(w, mask)) == WordMacros.RoundUp(w, p, mask + 1)
    ensures WordMacros.LeastMultipleFrom(WordMacros.RoundUp(w, p, mask + 1), p, mask + 1) <==> p + mask < Pow2(w)
    ensures WordMacros.RoundUp(w, p, mask + 1) == AlignUp(p, mask) <==> p + mask < Pow2(w)
  {
    var k: nat :| mask + 1 == Pow2(k);
    var t, r := WordMacros.Wrap(w, p + mask), WordMacros.RoundUp(w, p, mask + 1);
    AndNotIsSubtract(w, t, mask);
    AndMaskIsMod(t, k);
    QuotientRemainder(t, mask + 1);
    WordMacros.QuotientTimesDivisor(t, mask + 1);
    WordMacros.WrapFits(w, t / (mask + 1) * (mask + 1));
    WordMacros.RoundUpExact(w, p, mask + 1);
    AlignUpIsLeast(p, mask);
    if p + mask < Pow2(w) {
      assert AlignUp(p, mask) <= r && r <= AlignUp(p, mask);
    }
  }

  // ---------------------------------------------------------------- chains

  lemma {:induction false} OnChainTransitive(a: Chunk, b: Chunk, c: Chunk)
    requires OnChain(a, b) && OnChain(b, c)
    ensures OnChain(a, c)
  {
    if b != c { OnChainTransitive(a, b, c.prev); }
  }

  function Depth(c: Chunk): nat { if c.NoChunk? then 0 else 1 + Depth(c.prev) }

  lemma {:induction false} OnChainDepth(a: Chunk, b: Chunk)
    requires OnChain(a, b)
    ensures a.Chunk? && Depth(a) <= Depth(b)
  {
    if a != b { OnChainDepth(a, b.prev); }
  }

  /** A chunk is never among the chunks before it. */
  lemma NotBeforeItself(c: Chunk)
    requires c.Chunk?
    ensures !OnChain(c, c.prev)
  {
    if OnChain(c, c.prev) { OnChainDepth(c, c.prev); }
  }

  lemma {:induction false} ChainOkBelow(c: Chunk, d: Chunk, mask: nat)
    requires ChainOk(d, mask) && OnChain(c, d)
    ensures c.Chunk? && ChainOk(c, mask)
  {
    if c != d { ChainOkBelow(c, d.prev, mask); }
  }

  lemma {:induction false} ApartFromMember(lo: nat, hi: nat, c: Chunk, d: Chunk)
    requires Apart(lo, hi, d) && OnChain(c, d)
    ensures c.Chunk? && (hi <= c.addr || c.limit <= lo)
  {
    if c != d { ApartFromMember(lo, hi, c, d.prev); }
  }

  lemma {:induction false} ApartFromOwned(lo: nat, hi: nat, d: Chunk)
    requires Apart(lo, hi, d)
    ensures forall a: nat :: Owned(d, a) ==> !(lo <= a < hi)
  {
    if d.Chunk? { ApartFromOwned(lo, hi, d.prev); }
  }

  lemma {:induction false} OwnedByMember(c: Chunk, d: Chunk)
    requires OnChain(c, d)
    ensures c.Chunk? && forall a: nat :: Owned(c, a) ==> Owned(d, a)
  {
    if c != d { OwnedByMember(c, d.prev); }
  }

  /** The start of a chunk's object area lies past its header. */
  lemma StartPastHeader(addr: nat, mask: nat)
    requires WordMacros.PowerOfTwo(mask + 1)
    ensures addr + CONTENTS_OFFSET <= Start(addr, mask)
    ensures Aligned(Start(addr, mask), mask)
  {
    AlignUpExact(addr + CONTENTS_OFFSET, mask);
  }

  /** Every byte of a chain member's object area is owned. */
  lemma MemberOwns(s: State, c: Chunk, lo: nat, n: nat)
    requires OwnsExactly(s.mem, s.chunk) && OnChain(c, s.chunk)
    requires c.Chunk? && c.addr + CONTENTS_OFFSET <= lo && lo + n <= c.limit
    ensures Owns(s.mem, lo, n)
  {
    OwnedByMember(c, s.chunk);
    forall a: nat | lo <= a < lo + n ensures a in s.mem {
      assert Owned(c, a);
    }
  }

  /** Exactly one chunk of the stack has `a` between its header and its limit. */
  lemma {:induction false} FindChunkIsHome(h: Chunk, d: Chunk, a: nat, mask: nat)
    requires ChainOk(d, mask) && h.Chunk? && OnChain(h, d) && h.addr < a <= h.limit
    ensures FindChunk(d, a) == h
  {
    if h != d {
      ApartFromMember(d.addr, d.limit, h, d.prev);
      FindChunkIsHome(h, d.prev, a, mask);
    }
  }

  // ---------------------------------------------------------------- writes

  /** Writing above the growing object's base in the current chunk leaves finished objects alone. */
  lemma ObjectsBelowUntouched(s: State, o: Obj, a: nat, data: seq<byte>)
    requires StateOk(s) && ObjOk(s, o)
    requires s.objectBase <= a && a + |data| <= s.chunkLimit
    ensures Slice(Store(s.mem, a, data), o.addr, |o.bytes|) == o.bytes
  {
    StartPastHeader(s.chunk.addr, s.alignmentMask);
    StartPastHeader(o.home.addr, s.alignmentMask);
    if o.home != s.chunk {
      ApartFromMember(s.chunk.addr, s.chunk.limit, o.home, s.chunk.prev);
    }
    SliceBesideStore(s.mem, a, data, o.addr, |o.bytes|);
  }

  lemma AppendGrows(s: State, data: seq<byte>)
    requires StateOk(s) && Fits(s, |data|)
    ensures Owns(s.mem, s.nextFree, |data|)
    ensures Growing(Append(s, data)) == Growing(s) + data
  {
    var m := Store(s.mem, s.nextFree, data);
    var n := s.nextFree - s.objectBase;
    StartPastHeader(s.chunk.addr, s.alignmentMask);
    MemberOwns(s, s.chunk, s.nextFree, |data|);
    SliceConcat(m, s.objectBase, n, |data|);
    SliceBesideStore(s.mem, s.nextFree, data, s.objectBase, n);
    SliceOfStore(s.mem, s.nextFree, data);
  }

  lemma AppendKeepsInv(c: Config, data: seq<byte>)
    requires Inv(c) && Fits(c.s, |data|)
    ensures Inv(Config(Append(c.s, data), c.objs))
  {
    forall i | 0 <= i < |c.objs| ensures ObjOk(Append(c.s, data), c.objs[i]) {
      assert ObjOk(c.s, c.objs[i]);
      ObjectsBelowUntouched(c.s, c.objs[i], c.s.nextFree, data);
    }
  }

  lemma AdvanceKeepsInv(c: Config, len: int)
    requires Inv(c) && Fits(c.s, len) && c.s.objectBase <= c.s.nextFree + len
    ensures Inv(Config(c.s.(nextFree := c.s.nextFree + len), c.objs))
  {
    var t := c.s.(nextFree := c.s.nextFree + len);
    forall i | 0 <= i < |c.objs| ensures ObjOk(t, c.objs[i]) {
      assert ObjOk(c.s, c.objs[i]);
    }
  }

  // ---------------------------------------------------------------- relocation

  /** If the old chunk is freed, no live object, not even an empty one, points into it. */
  lemma ReplacedChunkHoldsNoObject(c: Config, i: nat)
    requires Inv(c) && i < |c.objs|
    requires c.s.objectBase == Start(c.s.chunk.addr, c.s.alignmentMask) && !c.s.maybeEmptyObject
    ensures c.objs[i].home != c.s.chunk
  {
    assert ObjOk(c.s, c.objs[i]);
  }

  /** The copy itself: who owns what, and the moved object. */
  lemma MovedOwns(s: State, n: int, ch: Choice)
    requires StateOk(s) && ChoiceOk(s, n, ch)
    ensures OwnsExactly(Moved(s, ch), Chunk(ch.addr, ch.addr + CONTENTS_OFFSET + |ch.fill|, s.chunk))
  {
    var area := Region(ch.addr + CONTENTS_OFFSET, ch.fill);
    assert forall a :: a in Moved(s, ch) <==> a in s.mem || a in area;
  }

  lemma MovedObject(s: State, n: int, ch: Choice)
    requires StateOk(s) && ChoiceOk(s, n, ch)
    ensures Slice(Moved(s, ch), Start(ch.addr, s.alignmentMask), |Growing(s)|) == Growing(s)
  {
    var area := Region(ch.addr + CONTENTS_OFFSET, ch.fill);
    var base := Start(ch.addr, s.alignmentMask);
    StartPastHeader(ch.addr, s.alignmentMask);
    assert Owns(area, base, |Growing(s)|);
    SliceOfStore(s.mem + area, base, Growing(s));
  }

  lemma MovedElsewhere(s: State, n: int, ch: Choice, lo: nat, k: nat)
    requires StateOk(s) && ChoiceOk(s, n, ch)
    requires lo + k <= ch.addr + CONTENTS_OFFSET || ch.addr + CONTENTS_OFFSET + |ch.fill| <= lo
    ensures Slice(Moved(s, ch), lo, k) == Slice(s.mem, lo, k)
  {
    var base := Start(ch.addr, s.alignmentMask);
    assert ch.addr + CONTENTS_OFFSET <= base by { StartPastHeader(ch.addr, s.alignmentMask); }
    SliceBesideInsertion(s.mem, ch.addr + CONTENTS_OFFSET, ch.fill, base, Growing(s), lo, k);
  }

  lemma SliceOfRelease(m: Mem, c: Chunk, lo: nat, n: nat)
    requires c.Chunk? && (lo + n <= c.addr + CONTENTS_OFFSET || c.limit <= lo)
    ensures Slice(Release(m, c), lo, n) == Slice(m, lo, n)
  {
  }

  /** Removing the second chunk of a chain from memory leaves the others' bytes. */
  lemma ReleasedKeys(m: Mem, addr: nat, limit: nat, c: Chunk)
    requires c.Chunk? && Apart(addr, limit, c) && Apart(c.addr, c.limit, c.prev)
    requires OwnsExactly(m, Chunk(addr, limit, c))
    ensures OwnsExactly(Release(m, c), Chunk(addr, limit, c.prev))
  {
    ApartFromOwned(addr, limit, c);
    ApartFromOwned(c.addr, c.limit, c.prev);
    forall a: nat ensures a in Release(m, c) <==> Owned(Chunk(addr, limit, c.prev), a) {
      var inNew, inOld := addr + CONTENTS_OFFSET <= a < limit, c.addr + CONTENTS_OFFSET <= a < c.limit;
      assert Owned(c, a) <==> inOld || Owned(c.prev, a);
      assert a in m <==> inNew || Owned(c, a) by { assert a in m <==> Owned(Chunk(addr, limit, c), a); }
      assert Owned(Chunk(addr, limit, c.prev), a) <==> inNew || Owned(c.prev, a);
      assert a in Release(m, c) <==> a in m && !inOld;
      assert inNew ==> !inOld;
    }
  }

  lemma NewChunkShape(s: State, n: int, ch: Choice)
    requires StateOk(s) && ChoiceOk(s, n, ch)
    ensures var t := NewChunk(s, ch);
      && ChainOk(t.chunk, s.alignmentMask)
      && Start(ch.addr, s.alignmentMask) == t.objectBase <= t.nextFree <= t.chunkLimit
      && Aligned(t.objectBase, s.alignmentMask)
      && Fits(t, n)
  {
    StartPastHeader(ch.addr, s.alignmentMask);
  }

  lemma NewChunkMemory(s: State, n: int, ch: Choice)
    requires StateOk(s) && ChoiceOk(s, n, ch)
    ensures OwnsExactly(NewChunk(s, ch).mem, NewChunk(s, ch).chunk)
  {
    MovedOwns(s, n, ch);
    if ch.replace { ReleasedKeys(Moved(s, ch), ch.addr, ch.addr + CONTENTS_OFFSET + |ch.fill|, s.chunk); }
  }

  lemma NewChunkGrowing(s: State, n: int, ch: Choice)
    requires StateOk(s) && ChoiceOk(s, n, ch)
    ensures Growing(NewChunk(s, ch)) == Growing(s)
  {
    var base := Start(ch.addr, s.alignmentMask);
    StartPastHeader(ch.addr, s.alignmentMask);
    MovedObject(s, n, ch);
    if ch.replace { SliceOfRelease(Moved(s, ch), s.chunk, base, |Growing(s)|); }
  }

  lemma NewChunkState(s: State, n: int, ch: Choice)
    requires StateOk(s) && ChoiceOk(s, n, ch)
    ensures StateOk(NewChunk(s, ch)) && Fits(NewChunk(s, ch), n)
    ensures Growing(NewChunk(s, ch)) == Growing(s)
  {
    NewChunkShape(s, n, ch);
    NewChunkMemory(s, n, ch);
    NewChunkGrowing(s, n, ch);
  }

  lemma NewChunkKeepsObject(c: Config, n: int, ch: Choice, i: nat)
    requires Inv(c) && ChoiceOk(c.s, n, ch) && i < |c.objs|
    ensures ObjOk(NewChunk(c.s, ch), c.objs[i])
  {
    var s, o, t := c.s, c.objs[i], NewChunk(c.s, ch);
    assert ObjOk(s, o);
    StartPastHeader(ch.addr, s.alignmentMask);
    StartPastHeader(o.home.addr, s.alignmentMask);
    ApartFromMember(ch.addr, t.chunkLimit, o.home, s.chunk);
    MovedElsewhere(s, n, ch, o.addr, |o.bytes|);
    if ch.replace {
      ReplacedChunkHoldsNoObject(c, i);
      ApartFromMember(s.chunk.addr, s.chunk.limit, o.home, s.chunk.prev);
      SliceOfRelease(Moved(s, ch), s.chunk, o.addr, |o.bytes|);
    }
    NotBeforeItself(t.chunk);
  }

  lemma EnsureRoomKeepsInv(c: Config, n: int, ch: Choice)
    requires Inv(c) && (Fits(c.s, n) || ChoiceOk(c.s, n, ch))
    ensures Inv(Config(EnsureRoom(c.s, n, ch), c.objs))
    ensures Fits(EnsureRoom(c.s, n, ch), n)
    ensures Growing(EnsureRoom(c.s, n, ch)) == Growing(c.s)
  {
    if !Fits(c.s, n) {
      NewChunkState(c.s, n, ch);
      forall i | 0 <= i < |c.objs| ensures ObjOk(NewChunk(c.s, ch), c.objs[i]) {
        NewChunkKeepsObject(c, n, ch, i);
      }
    }
  }

  // ---------------------------------------------------------------- finish

  lemma FinishKeepsInv(c: Config)
    requires Inv(c)
    ensures Inv(Step(c, Finish))
    ensures Growing(FinishState(c.s)) == []
  {
    var s := c.s;
    var t := FinishState(s);
    var o := Obj(s.objectBase, Growing(s), s.chunk);
    AlignUpExact(s.nextFree, s.alignmentMask);
    StartPastHeader(s.chunk.addr, s.alignmentMask);
    forall i | 0 <= i < |c.objs| ensures ObjOk(t, c.objs[i]) && Below(c.objs[i], o) {
      assert ObjOk(s, c.objs[i]);
    }
    assert ObjOk(t, o);
  }

  // ---------------------------------------------------------------- free

  lemma FreeFindsHome(c: Config, i: nat, flag: bool)
    requires Inv(c) && Enabled(c, Free(i, flag))
    ensures FreeState(c.s, c.objs[i].addr, flag) ==
            if FastFree(c.s, c.objs[i].addr)
            then c.s.(objectBase := c.objs[i].addr, nextFree := c.objs[i].addr)
            else State(c.objs[i].home, c.objs[i].addr, c.objs[i].addr, c.objs[i].home.limit,
                       c.s.alignmentMask, flag,
                       map x | x in c.s.mem && Owned(c.objs[i].home, x) :: c.s.mem[x])
    ensures FastFree(c.s, c.objs[i].addr) ==> c.objs[i].home == c.s.chunk
  {
    var o := c.objs[i];
    assert ObjOk(c.s, o);
    StartPastHeader(o.home.addr, c.s.alignmentMask);
    FindChunkIsHome(o.home, c.s.chunk, o.addr, c.s.alignmentMask);
  }

  /** Unwinding keeps exactly the objects finished before the freed one. */
  lemma FreeKeepsInv(c: Config, i: nat, flag: bool)
    requires Inv(c) && Enabled(c, Free(i, flag))
    ensures Inv(Step(c, Free(i, flag)))
  {
    var s, o := c.s, c.objs[i];
    var t := FreeState(s, o.addr, flag);
    FreeFindsHome(c, i, flag);
    assert ObjOk(s, o);
    ChainOkBelow(o.home, s.chunk, s.alignmentMask);
    OwnedByMember(o.home, s.chunk);
    NotBeforeItself(o.home);
    forall j | 0 <= j < i ensures ObjOk(t, c.objs[j]) {
      FreeKeepsObject(c, i, flag, j);
    }
  }

  lemma FreeKeepsObject(c: Config, i: nat, flag: bool, j: nat)
    requires Inv(c) && Enabled(c, Free(i, flag)) && j < i
    ensures ObjOk(FreeState(c.s, c.objs[i].addr, flag), c.objs[j])
  {
    var s, o, p := c.s, c.objs[i], c.objs[j];
    FreeFindsHome(c, i, flag);
    assert ObjOk(s, o) && ObjOk(s, p) && Below(p, o);
    if !FastFree(s, o.addr) {
      NotBeforeItself(o.home);
      assert OnChain(p.home, o.home);
      StartPastHeader(p.home.addr, s.alignmentMask);
      OwnedByMember(p.home, o.home);
      var t := FreeState(s, o.addr, flag);
      forall a: nat | p.addr <= a < p.End() ensures Load(t.mem, a) == Load(s.mem, a) {
        assert Owned(p.home, a);
      }
    }
  }

  // ---------------------------------------------------------------- client writes

  /** Live objects never share a byte. */
  lemma ObjectsDisjoint(c: Config, i: nat, j: nat)
    requires Inv(c) && i < j < |c.objs|
    ensures c.objs[i].End() <= c.objs[j].addr || c.objs[j].End() <= c.objs[i].addr
  {
    var o, p := c.objs[i], c.objs[j];
    assert ObjOk(c.s, o) && ObjOk(c.s, p) && Below(o, p);
    if o.home != p.home {
      ChainOkBelow(p.home, c.s.chunk, c.s.alignmentMask);
      ApartFromMember(p.home.addr, p.home.limit, o.home, p.home.prev);
      StartPastHeader(o.home.addr, c.s.alignmentMask);
      StartPastHeader(p.home.addr, c.s.alignmentMask);
    }
  }

  /** A live object and the growing object never share a byte. */
  lemma GrowingDisjoint(c: Config, i: nat)
    requires Inv(c) && i < |c.objs|
    ensures c.objs[i].End() <= c.s.objectBase || c.s.chunkLimit <= c.objs[i].addr
  {
    var o := c.objs[i];
    assert ObjOk(c.s, o);
    if o.home != c.s.chunk {
      ApartFromMember(c.s.chunk.addr, c.s.chunk.limit, o.home, c.s.chunk.prev);
      StartPastHeader(o.home.addr, c.s.alignmentMask);
      StartPastHeader(c.s.chunk.addr, c.s.alignmentMask);
    }
  }

  lemma PokedObject(c: Config, i: nat, k: nat, b: byte)
    requires Inv(c) && Enabled(c, Poke(i, k, b))
    ensures ObjOk(Step(c, Poke(i, k, b)).s, Step(c, Poke(i, k, b)).objs[i])
  {
    var o := c.objs[i];
    assert ObjOk(c.s, o);
    StartPastHeader(o.home.addr, c.s.alignmentMask);
    MemberOwns(c.s, o.home, o.addr, |o.bytes|);
    SliceOfPoke(c.s.mem, o.addr, |o.bytes|, k, b);
  }

  lemma PokeKeepsOther(c: Config, i: nat, k: nat, b: byte, j: nat)
    requires Inv(c) && Enabled(c, Poke(i, k, b)) && j < |c.objs| && j != i
    ensures ObjOk(Step(c, Poke(i, k, b)).s, c.objs[j])
  {
    var o, p := c.objs[i], c.objs[j];
    assert ObjOk(c.s, p);
    ObjectsDisjoint(c, if j < i then j else i, if j < i then i else j);
    SliceBesideStore(c.s.mem, o.addr + k, [b], p.addr, |p.bytes|);
  }

  lemma PokeKeepsInv(c: Config, i: nat, k: nat, b: byte)
    requires Inv(c) && Enabled(c, Poke(i, k, b))
    ensures Inv(Step(c, Poke(i, k, b)))
  {
    var d := Step(c, Poke(i, k, b));
    assert ObjOk(c.s, c.objs[i]);
    forall j | 0 <= j < |c.objs| ensures ObjOk(d.s, d.objs[j]) {
      if j == i { PokedObject(c, i, k, b); } else { PokeKeepsOther(c, i, k, b, j); }
    }
    forall j, l | 0 <= j < l < |c.objs| ensures Below(d.objs[j], d.objs[l]) {
      assert Below(c.objs[j], c.objs[l]);
    }
  }

  /** The write stays inside owned memory. */
  lemma PokeOwned(c: Config, i: nat, k: nat, b: byte)
    requires Inv(c) && Enabled(c, Poke(i, k, b))
    ensures Owns(c.s.mem, c.objs[i].addr + k, 1)
  {
    var s, o := c.s, c.objs[i];
    assert ObjOk(s, o);
    StartPastHeader(o.home.addr, s.alignmentMask);
    MemberOwns(s, o.home, o.addr + k, 1);
  }

  /** It does not reach the growing object. */
  lemma PokeKeepsGrowing(c: Config, i: nat, k: nat, b: byte)
    requires Inv(c) && Enabled(c, Poke(i, k, b))
    ensures Growing(Step(c, Poke(i, k, b)).s) == Growing(c.s)
  {
    var s := c.s;
    GrowingDisjoint(c, i);
    SliceBesideStore(s.mem, c.objs[i].addr + k, [b], s.objectBase, s.nextFree - s.objectBase);
  }

  // ---------------------------------------------------------------- every step

  lemma RoomThenAppend(c: Config, data: seq<byte>, ch: Choice)
    requires Inv(c) && (Fits(c.s, |data|) || ChoiceOk(c.s, |data|, ch))
    ensures Inv(Config(Append(EnsureRoom(c.s, |data|, ch), data), c.objs))
    ensures Growing(Append(EnsureRoom(c.s, |data|, ch), data)) == Growing(c.s) + data
  {
    EnsureRoomKeepsInv(c, |data|, ch);
    AppendGrows(EnsureRoom(c.s, |data|, ch), data);
    AppendKeepsInv(Config(EnsureRoom(c.s, |data|, ch), c.objs), data);
  }

  lemma GrowthKeepsInv(c: Config, op: Op)
    requires Inv(c) && Enabled(c, op)
    requires op.MakeRoom? || op.Grow? || op.Grow0? || op.OneGrow? || op.Blank?
    ensures Inv(Step(c, op))
  {
    match op
    case MakeRoom(n, ch) => EnsureRoomKeepsInv(c, n, ch);
    case Grow(data, ch) => RoomThenAppend(c, data, ch);
    case Grow0(data, ch) => RoomThenAppend(c, data + [0], ch);
    case OneGrow(b, ch) => RoomThenAppend(c, [b], ch);
    case Blank(len, ch) =>
      EnsureRoomKeepsInv(c, len, ch);
      AdvanceKeepsInv(Config(EnsureRoom(c.s, len, ch), c.objs), len);
  }

  /** Every operation, on every path, keeps the invariant. */
  lemma StepKeepsInv(c: Config, op: Op)
    requires Inv(c) && Enabled(c, op)
    ensures Inv(Step(c, op))
  {
    match op
    case OneGrowFast(b) => AppendKeepsInv(c, [b]);
    case BlankFast(len) => AdvanceKeepsInv(c, len);
    case Finish => FinishKeepsInv(c);
    case Free(i, flag) => FreeKeepsInv(c, i, flag);
    case Poke(i, k, b) => PokeKeepsInv(c, i, k, b);
    case _ => GrowthKeepsInv(c, op);
  }
}
