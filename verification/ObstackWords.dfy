/**
The object stack on pointers of `w` bits: pointer sums wrap, pointer differences are signed.
Each macro's room test, rounding, clip and path test is written out for both families; the
statements say exactly when they decide what the transitions on natural numbers decide.
*/
module ObstackWords {
  import opened Bits
  import opened Memory
  import opened Obstack
  import opened ObstackProofs
  import opened ObstackRuns
  import opened WordMacros

  /** The difference p - q of two pointers, a signed word. */
  function PointerDifference(w: nat, p: nat, q: nat): int
    requires w > 0
  {
    AsInt(w, Wrap(w, p - q))
  }

  // ---------------------------------------------------------------- room tests

  /** chunk_limit - next_free < length: no room. */
  predicate DifferenceTest(w: nat, next: nat, limit: nat, len: int)
    requires w > 0
  {
    PointerDifference(w, limit, next) < len
  }

  /** next_free + length > chunk_limit: no room. */
  predicate SumTest(w: nat, next: nat, limit: nat, len: int) {
    Wrap(w, next + len) > limit
  }

  /** A length that an int holds. */
  predicate IntLength(w: nat, len: int)
    requires w > 0
  {
    0 - Pow2(w - 1) <= len < Pow2(w - 1)
  }

  lemma DifferenceTestExact(w: nat, next: nat, limit: nat, len: int)
    requires w > 0 && next <= limit < Pow2(w) && limit - next < Pow2(w - 1)
    ensures DifferenceTest(w, next, limit, len) <==> next + len > limit
  {
    WrapFits(w, limit - next);
  }

  /** The sum test is right exactly when next_free + length does not wrap; when it wraps past the
      top it reports room although there is none. */
  lemma SumTestExact(w: nat, next: nat, limit: nat, len: int)
    requires w > 0 && next <= limit < Pow2(w) && limit - next < Pow2(w - 1) && IntLength(w, len)
    ensures (SumTest(w, next, limit, len) <==> next + len > limit) <==> 0 <= next + len < Pow2(w)
    ensures next + len >= Pow2(w) ==> !SumTest(w, next, limit, len) && next + len > limit
  {
    if next + len < 0 {
      ModOfDifference(next + len, Pow2(w));
    } else if next + len < Pow2(w) {
      WrapFits(w, next + len);
    } else {
      ModOfSum(next + len, Pow2(w));
    }
  }

  /** The two tests of obstack_make_room agree exactly when the sum does not wrap. */
  lemma RoomTestsAgreeExact(w: nat, next: nat, limit: nat, len: int)
    requires w > 0 && next <= limit < Pow2(w) && limit - next < Pow2(w - 1) && IntLength(w, len)
    ensures (DifferenceTest(w, next, limit, len) <==> SumTest(w, next, limit, len)) <==> 0 <= next + len < Pow2(w)
  {
    DifferenceTestExact(w, next, limit, len);
    SumTestExact(w, next, limit, len);
  }

  // ---------------------------------------------------------------- finish

  /** (next_free + mask) & ~mask. */
  function RoundOnWords(w: nat, p: nat, mask: nat): nat
    requires mask < Pow2(w)
  {
    And(Wrap(w, p + mask), Not(w, mask))
  }

  /** next_free after obstack_finish. */
  function FinishOnWords(w: nat, chunk: nat, next: nat, limit: nat, mask: nat): nat
    requires w > 0 && mask < Pow2(w)
  {
    var up := RoundOnWords(w, next, mask);
    if PointerDifference(w, up, chunk) > PointerDifference(w, limit, chunk) then limit else up
  }

  lemma PowerDivides(k: nat, w: nat)
    requires Pow2(k) <= Pow2(w)
    ensures Pow2(w) / Pow2(k) * Pow2(k) == Pow2(w)
  {
    if k > w { Pow2Strict(w, k); }
    Pow2Add(w - k, k);
    DivModUnique(Pow2(w), Pow2(k), Pow2(w - k), 0);
  }

  lemma WrapOfTop(w: nat)
    ensures Wrap(w, Pow2(w)) == 0
  {
    DivModUnique(Pow2(w), Pow2(w), 1, 0);
  }

  /** An address whose rounding does not fit the word rounds to 2^w, and to zero on words. */
  lemma RoundAtTop(w: nat, p: nat, mask: nat)
    requires PowerOfTwo(mask + 1) && p < Pow2(w) <= p + mask && mask + 1 < Pow2(w)
    ensures AlignUp(p, mask) == Pow2(w) && RoundOnWords(w, p, mask) == 0
  {
    var k: nat :| mask + 1 == Pow2(k);
    var t := p + mask - Pow2(w);
    ModOfSum(p + mask, Pow2(w));
    ModIdentity(t, Pow2(k));
    assert And(t, mask) == t by { AndMaskIsMod(t, k); }
    AndNotIsSubtract(w, t, mask);
    assert And(p + mask, mask) == t by {
      AndMaskIsMod(p + mask, k);
      PowerDivides(k, w);
      ModIgnoresMultiples(t, Pow2(w) / Pow2(k), Pow2(k));
    }
  }

  /** The rounding of words is the rounding of numbers, wrapped. */
  lemma RoundWraps(w: nat, p: nat, mask: nat)
    requires PowerOfTwo(mask + 1) && p < Pow2(w) && mask + 1 < Pow2(w)
    ensures RoundOnWords(w, p, mask) == Wrap(w, AlignUp(p, mask))
    ensures AlignUp(p, mask) <= Pow2(w)
  {
    if p + mask < Pow2(w) {
      AlignUpOnWords(w, p, mask);
      AlignUpExact(p, mask);
      WrapFits(w, AlignUp(p, mask));
    } else {
      RoundAtTop(w, p, mask);
      WrapOfTop(w);
    }
  }

  /** The signed distance of a wrapped address from the chunk. */
  lemma WrappedDistance(w: nat, a: nat, chunk: nat)
    requires w > 0 && chunk < a <= Pow2(w) && a - chunk < Pow2(w)
    ensures PointerDifference(w, Wrap(w, a), chunk) == AsInt(w, a - chunk)
  {
    if a < Pow2(w) {
      WrapFits(w, a);
      WrapFits(w, a - chunk);
    } else {
      WrapOfTop(w);
      ModOfDifference(0 - chunk, Pow2(w));
    }
  }

  /** Finish rounds and clips as intended, the rounding that wraps at the top of memory included,
      exactly when the rounded address lies less than 2^(w-1) above the chunk. */
  lemma FinishOnWordsExact(w: nat, chunk: nat, next: nat, limit: nat, mask: nat)
    requires w > 0 && PowerOfTwo(mask + 1) && mask + 1 < Pow2(w - 1)
    requires chunk < next <= limit < Pow2(w) && limit - chunk < Pow2(w - 1)
    ensures FinishOnWords(w, chunk, next, limit, mask) ==
            (if AlignUp(next, mask) > limit then limit else AlignUp(next, mask))
            <==> AlignUp(next, mask) - chunk < Pow2(w - 1)
  {
    var a := AlignUp(next, mask);
    RoundWraps(w, next, mask);
    AlignUpExact(next, mask);
    WrappedDistance(w, a, chunk);
    WrapFits(w, limit - chunk);
    if a < Pow2(w) { WrapFits(w, a); } else { WrapOfTop(w); }
  }

  // ---------------------------------------------------------------- free

  /** (char *) obj - (char *) chunk, the portable family's `temp`. */
  function FreeOffset(w: nat, chunk: nat, obj: nat): int
    requires w > 0
  {
    PointerDifference(w, obj, chunk)
  }

  predicate OffsetTest(w: nat, chunk: nat, limit: nat, obj: nat)
    requires w > 0
  {
    0 < FreeOffset(w, chunk, obj) < PointerDifference(w, limit, chunk)
  }

  /** The offset test is the pointer comparison of the other family for every address, and adding
      the offset back gives the address. */
  lemma OffsetTestExact(w: nat, chunk: nat, limit: nat, obj: nat)
    requires w > 0 && chunk < limit < Pow2(w) && limit - chunk < Pow2(w - 1) && obj < Pow2(w)
    ensures OffsetTest(w, chunk, limit, obj) <==> chunk < obj < limit
    ensures Wrap(w, FreeOffset(w, chunk, obj) + chunk) == obj
  {
    var p := Pow2(w);
    WrapFits(w, limit - chunk);
    if obj >= chunk { WrapFits(w, obj - chunk); } else { ModOfDifference(obj - chunk, p); }
    var t := FreeOffset(w, chunk, obj) + chunk;
    if t < 0 {
      ModOfDifference(t, p);
    } else if t < p {
      WrapFits(w, t);
    } else {
      ModOfSum(t, p);
    }
  }

  // ---------------------------------------------------------------- one operation

  /** Relocate if the test says so. */
  function EnsureOnWords(w: nat, difference: bool, s: State, n: int, ch: Choice): State
    requires w > 0 && s.objectBase <= s.nextFree && s.chunk.Chunk?
  {
    if (if difference then DifferenceTest(w, s.nextFree, s.chunkLimit, n) else SumTest(w, s.nextFree, s.chunkLimit, n))
    then NewChunk(s, ch)
    else s
  }

  function AppendOnWords(w: nat, s: State, data: seq<byte>): State {
    s.(mem := Store(s.mem, s.nextFree, data), nextFree := Wrap(w, s.nextFree + |data|))
  }

  function AdvanceOnWords(w: nat, s: State, len: int): State {
    s.(nextFree := Wrap(w, s.nextFree + len))
  }

  function FreeOnWords(w: nat, gnu: bool, s: State, a: nat, flag: bool): State
    requires w > 0 && s.chunk.Chunk?
  {
    if gnu then
      if a > s.chunk.addr && a < s.chunkLimit then s.(objectBase := a, nextFree := a) else SlowFree(s, a, flag)
    else
      var obj := Wrap(w, FreeOffset(w, s.chunk.addr, a) + s.chunk.addr);
      if OffsetTest(w, s.chunk.addr, s.chunkLimit, a) then s.(objectBase := obj, nextFree := obj)
      else SlowFree(s, obj, flag)
  }

  /** One macro of the GNU family, or of the portable one, on `w`-bit pointers. */
  function StepOnWords(w: nat, gnu: bool, c: Config, op: Op): Config
    requires w > 0 && Inv(c) && Enabled(c, op) && c.s.alignmentMask < Pow2(w)
  {
    var s := c.s;
    match op
    case MakeRoom(n, ch) => c.(s := EnsureOnWords(w, gnu, s, n, ch))
    case Grow(data, ch) => c.(s := AppendOnWords(w, EnsureOnWords(w, false, s, |data|, ch), data))
    case Grow0(data, ch) => c.(s := AppendOnWords(w, EnsureOnWords(w, false, s, |data| + 1, ch), data + [0]))
    case OneGrow(b, ch) => c.(s := AppendOnWords(w, EnsureOnWords(w, false, s, 1, ch), [b]))
    case Blank(len, ch) => c.(s := AdvanceOnWords(w, EnsureOnWords(w, true, s, len, ch), len))
    case OneGrowFast(b) => c.(s := AppendOnWords(w, s, [b]))
    case BlankFast(len) => c.(s := AdvanceOnWords(w, s, len))
    case Finish =>
      var next := FinishOnWords(w, s.chunk.addr, s.nextFree, s.chunkLimit, s.alignmentMask);
      Config(s.(maybeEmptyObject := s.maybeEmptyObject || s.nextFree == s.objectBase,
                nextFree := next, objectBase := next),
             c.objs + [Obj(s.objectBase, Growing(s), s.chunk)])
    case Free(i, flag) => Config(FreeOnWords(w, gnu, s, c.objs[i].addr, flag), c.objs[..i])
    case Poke(i, k, b) => Step(c, op)
  }

  // ---------------------------------------------------------------- what fits a word

  /** Every chunk ends below 2^w and is smaller than 2^(w-1) bytes. */
  predicate ChainFits(w: nat, d: Chunk)
    requires w > 0
  {
    d.Chunk? ==> d.limit < Pow2(w) && d.limit - d.addr < Pow2(w - 1) && ChainFits(w, d.prev)
  }

  ghost predicate FitsWords(w: nat, c: Config) {
    w > 0 && c.s.alignmentMask + 1 < Pow2(w - 1) && ChainFits(w, c.s.chunk)
  }

  predicate ChoiceFits(w: nat, ch: Choice)
    requires w > 0
  {
    ch.addr + CONTENTS_OFFSET + |ch.fill| < Pow2(w) && CONTENTS_OFFSET + |ch.fill| < Pow2(w - 1)
  }

  /** An int length, and an allowed chunk that fits a word whenever one may be asked for. */
  predicate CallOk(w: nat, s: State, n: int, ch: Choice)
    requires w > 0 && s.objectBase <= s.nextFree && s.chunk.Chunk?
  {
    && IntLength(w, n)
    && ((Fits(s, n) && !SumTest(w, s.nextFree, s.chunkLimit, n)) || (ChoiceOk(s, n, ch) && ChoiceFits(w, ch)))
  }

  ghost predicate EnabledOnWords(w: nat, c: Config, op: Op)
    requires w > 0 && Inv(c)
  {
    Enabled(c, op) &&
    match op
    case MakeRoom(n, ch) => CallOk(w, c.s, n, ch)
    case Grow(data, ch) => CallOk(w, c.s, |data|, ch)
    case Grow0(data, ch) => CallOk(w, c.s, |data| + 1, ch)
    case OneGrow(b, ch) => CallOk(w, c.s, 1, ch)
    case Blank(len, ch) => CallOk(w, c.s, len, ch)
    case _ => true
  }

  /** No test sum wraps, and finish does not round half the address space away from the chunk. */
  predicate InRange(w: nat, gnu: bool, c: Config, op: Op)
    requires w > 0 && c.s.chunk.Chunk?
  {
    match op
    case MakeRoom(n, _) => gnu || 0 <= c.s.nextFree + n < Pow2(w)
    case Grow(data, _) => c.s.nextFree + |data| < Pow2(w)
    case Grow0(data, _) => c.s.nextFree + |data| + 1 < Pow2(w)
    case OneGrow(_, _) => c.s.nextFree + 1 < Pow2(w)
    case Finish => AlignUp(c.s.nextFree, c.s.alignmentMask) - c.s.chunk.addr < Pow2(w - 1)
    case _ => true
  }

  // ---------------------------------------------------------------- exactness of one operation

  lemma {:induction false} MemberFits(w: nat, c: Chunk, d: Chunk)
    requires w > 0 && ChainFits(w, d) && OnChain(c, d)
    ensures c.Chunk? && c.limit < Pow2(w) && ChainFits(w, c)
  {
    if c != d { MemberFits(w, c, d.prev); }
  }

  /** A relocation really changes the chunk. */
  lemma RelocationChangesChunk(s: State, n: int, ch: Choice)
    requires StateOk(s) && ChoiceOk(s, n, ch)
    ensures NewChunk(s, ch).chunk != s.chunk
  {
    StartPastHeader(s.chunk.addr, s.alignmentMask);
  }

  lemma CurrentChunkFits(w: nat, c: Config)
    requires Inv(c) && FitsWords(w, c)
    ensures c.s.chunk.addr < c.s.nextFree <= c.s.chunkLimit < Pow2(w)
    ensures c.s.chunkLimit - c.s.chunk.addr < Pow2(w - 1)
    ensures c.s.alignmentMask < Pow2(w)
  {
    StartPastHeader(c.s.chunk.addr, c.s.alignmentMask);
  }

  /** Making room is what it should be exactly when the test is right. */
  lemma EnsureOnWordsExact(w: nat, difference: bool, c: Config, n: int, ch: Choice)
    requires Inv(c) && FitsWords(w, c) && CallOk(w, c.s, n, ch)
    ensures EnsureOnWords(w, difference, c.s, n, ch) == EnsureRoom(c.s, n, ch)
            <==> difference || 0 <= c.s.nextFree + n < Pow2(w)
    ensures EnsureOnWords(w, difference, c.s, n, ch) != EnsureRoom(c.s, n, ch) ==>
            EnsureOnWords(w, difference, c.s, n, ch).chunk != EnsureRoom(c.s, n, ch).chunk
  {
    var s := c.s;
    CurrentChunkFits(w, c);
    DifferenceTestExact(w, s.nextFree, s.chunkLimit, n);
    SumTestExact(w, s.nextFree, s.chunkLimit, n);
    if ChoiceOk(s, n, ch) { RelocationChangesChunk(s, n, ch); }
  }

  /** After making room, adding to next_free does not wrap. */
  lemma RoomDoesNotWrap(w: nat, c: Config, n: int, ch: Choice)
    requires Inv(c) && FitsWords(w, c) && CallOk(w, c.s, n, ch) && c.s.objectBase <= c.s.nextFree + n
    ensures var t := EnsureRoom(c.s, n, ch); Wrap(w, t.nextFree + n) == t.nextFree + n
  {
    var t := EnsureRoom(c.s, n, ch);
    CurrentChunkFits(w, c);
    EnsureRoomKeepsInv(c, n, ch);
    WrapFits(w, t.nextFree + n);
  }

  lemma AppendStepExact(w: nat, c: Config, data: seq<byte>, ch: Choice)
    requires Inv(c) && FitsWords(w, c) && CallOk(w, c.s, |data|, ch)
    ensures AppendOnWords(w, EnsureOnWords(w, false, c.s, |data|, ch), data)
            == Append(EnsureRoom(c.s, |data|, ch), data)
            <==> c.s.nextFree + |data| < Pow2(w)
  {
    EnsureOnWordsExact(w, false, c, |data|, ch);
    RoomDoesNotWrap(w, c, |data|, ch);
  }

  lemma ObjectAddressFits(w: nat, c: Config, i: nat)
    requires Inv(c) && FitsWords(w, c) && i < |c.objs|
    ensures c.objs[i].addr < Pow2(w)
  {
    var o := c.objs[i];
    assert ObjOk(c.s, o);
    MemberFits(w, o.home, c.s.chunk);
  }

  /** Both path tests are exact for every address. */
  lemma FreeByAddress(w: nat, gnu: bool, s: State, a: nat, flag: bool)
    requires w > 0 && a < Pow2(w) && s.chunk.Chunk?
    requires s.chunk.addr < s.chunkLimit < Pow2(w) && s.chunkLimit - s.chunk.addr < Pow2(w - 1)
    ensures FreeOnWords(w, gnu, s, a, flag) == FreeState(s, a, flag)
  {
    OffsetTestExact(w, s.chunk.addr, s.chunkLimit, a);
  }

  lemma FreeOnWordsExact(w: nat, gnu: bool, c: Config, i: nat, flag: bool)
    requires Inv(c) && FitsWords(w, c) && Enabled(c, Free(i, flag))
    ensures FreeOnWords(w, gnu, c.s, c.objs[i].addr, flag) == FreeState(c.s, c.objs[i].addr, flag)
  {
    ObjectAddressFits(w, c, i);
    CurrentChunkFits(w, c);
    FreeByAddress(w, gnu, c.s, c.objs[i].addr, flag);
  }

  lemma GrowthOnWordsExact(w: nat, gnu: bool, c: Config, op: Op)
    requires Inv(c) && FitsWords(w, c) && EnabledOnWords(w, c, op) && c.s.alignmentMask < Pow2(w)
    requires op.MakeRoom? || op.Grow? || op.Grow0? || op.OneGrow? || op.Blank?
    ensures StepOnWords(w, gnu, c, op) == Step(c, op) <==> InRange(w, gnu, c, op)
  {
    match op
    case MakeRoom(n, ch) => EnsureOnWordsExact(w, gnu, c, n, ch);
    case Grow(data, ch) => AppendStepExact(w, c, data, ch);
    case Grow0(data, ch) => AppendStepExact(w, c, data + [0], ch);
    case OneGrow(b, ch) => AppendStepExact(w, c, [b], ch);
    case Blank(len, ch) =>
      EnsureOnWordsExact(w, true, c, len, ch);
      RoomDoesNotWrap(w, c, len, ch);
  }

  /** One macro of either family, on words, is the transition on numbers exactly when it is in
      range. */
  lemma StepOnWordsExact(w: nat, gnu: bool, c: Config, op: Op)
    requires Inv(c) && FitsWords(w, c) && EnabledOnWords(w, c, op) && c.s.alignmentMask < Pow2(w)
    ensures StepOnWords(w, gnu, c, op) == Step(c, op) <==> InRange(w, gnu, c, op)
  {
    match op
    case OneGrowFast(b) =>
      CurrentChunkFits(w, c);
      WrapFits(w, c.s.nextFree + 1);
    case BlankFast(len) =>
      CurrentChunkFits(w, c);
      WrapFits(w, c.s.nextFree + len);
    case Finish =>
      CurrentChunkFits(w, c);
      FinishOnWordsExact(w, c.s.chunk.addr, c.s.nextFree, c.s.chunkLimit, c.s.alignmentMask);
    case Free(i, flag) => FreeOnWordsExact(w, gnu, c, i, flag);
    case Poke(_, _, _) =>
    case _ => GrowthOnWordsExact(w, gnu, c, op);
  }

  /** The two families do the same, right or wrong, except for obstack_make_room when the
      portable sum wraps. */
  lemma FamiliesAgreeOnWordsExact(w: nat, c: Config, op: Op)
    requires Inv(c) && FitsWords(w, c) && EnabledOnWords(w, c, op) && c.s.alignmentMask < Pow2(w)
    ensures StepOnWords(w, true, c, op) == StepOnWords(w, false, c, op)
            <==> (op.MakeRoom? ==> 0 <= c.s.nextFree + op.n < Pow2(w))
  {
    match op
    case MakeRoom(n, ch) =>
      EnsureOnWordsExact(w, true, c, n, ch);
      EnsureOnWordsExact(w, false, c, n, ch);
    case Free(i, flag) =>
      FreeOnWordsExact(w, true, c, i, flag);
      FreeOnWordsExact(w, false, c, i, flag);
    case _ =>
  }

  // ---------------------------------------------------------------- runs

  lemma NextFitsWords(w: nat, c: Config, op: Op)
    requires Inv(c) && FitsWords(w, c) && EnabledOnWords(w, c, op)
    ensures FitsWords(w, Next(c, op))
  {
    if op.Free? {
      FreeFindsHome(c, op.i, op.flag);
      assert ObjOk(c.s, c.objs[op.i]);
      MemberFits(w, c.objs[op.i].home, c.s.chunk);
    }
  }

  /** Every operation is allowed and in range where it occurs. */
  ghost predicate RunnableOnWords(w: nat, gnu: bool, c: Config, ops: seq<Op>)
    requires Inv(c) && FitsWords(w, c)
    decreases |ops|
  {
    ops == [] ||
    (&& EnabledOnWords(w, c, ops[0])
     && InRange(w, gnu, c, ops[0])
     && (NextFitsWords(w, c, ops[0]); RunnableOnWords(w, gnu, Next(c, ops[0]), ops[1..])))
  }

  /** A run of one family's macros on words. */
  ghost function RunOnWords(w: nat, gnu: bool, c: Config, ops: seq<Op>): Config
    requires Inv(c) && FitsWords(w, c) && RunnableOnWords(w, gnu, c, ops)
    decreases |ops|
  {
    if ops == [] then c
    else
      CurrentChunkFits(w, c);
      StepOnWordsExact(w, gnu, c, ops[0]);
      NextFitsWords(w, c, ops[0]);
      RunOnWords(w, gnu, StepOnWords(w, gnu, c, ops[0]), ops[1..])
  }

  /** A run on words that stays in range is the run on numbers, so all its theorems hold of it. */
  lemma {:induction false} RunOnWordsExact(w: nat, gnu: bool, c: Config, ops: seq<Op>)
    requires Inv(c) && FitsWords(w, c) && RunnableOnWords(w, gnu, c, ops)
    ensures Runnable(c, ops) && RunOnWords(w, gnu, c, ops) == Run(c, ops)
    decreases |ops|
  {
    if ops == [] {
    } else {
      CurrentChunkFits(w, c);
      StepOnWordsExact(w, gnu, c, ops[0]);
      NextFitsWords(w, c, ops[0]);
      RunOnWordsExact(w, gnu, Next(c, ops[0]), ops[1..]);
    }
  }

  lemma {:induction false} PortableRangeIsNarrower(w: nat, c: Config, ops: seq<Op>)
    requires Inv(c) && FitsWords(w, c) && RunnableOnWords(w, false, c, ops)
    ensures RunnableOnWords(w, true, c, ops)
    decreases |ops|
  {
    if ops == [] {
    } else {
      NextFitsWords(w, c, ops[0]);
      PortableRangeIsNarrower(w, Next(c, ops[0]), ops[1..]);
    }
  }

  /** Over runs in range for the portable family the two families agree on words. */
  lemma FamiliesAgreeOnWords(w: nat, c: Config, ops: seq<Op>)
    requires Inv(c) && FitsWords(w, c) && RunnableOnWords(w, false, c, ops)
    ensures RunnableOnWords(w, true, c, ops)
    ensures RunOnWords(w, true, c, ops) == RunOnWords(w, false, c, ops)
  {
    PortableRangeIsNarrower(w, c, ops);
    RunOnWordsExact(w, true, c, ops);
    RunOnWordsExact(w, false, c, ops);
  }
}
