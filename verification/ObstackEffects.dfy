/**
What each operation of the object stack changes, written out on the fields: objects and growing
bytes, relocation, the empty-object flag, memory, and the addresses that are returned.
*/
module ObstackEffects {
  import opened Bits
  import opened Memory
  import opened Obstack
  import opened ObstackProofs
  import opened ObstackRuns
  import WordMacros

  // ---------------------------------------------------------------- objects and growing bytes

  lemma GrowthEffect(c: Config, op: Op)
    requires Inv(c) && Enabled(c, op)
    requires op.MakeRoom? || op.Grow? || op.Grow0? || op.OneGrow? || op.Blank? || op.OneGrowFast? || op.BlankFast?
    ensures Next(c, op).objs == c.objs
    ensures var g, h := Growing(c.s), Growing(Next(c, op).s);
      match op
      case MakeRoom(n, _) => h == g && Next(c, op).s.nextFree + n <= Next(c, op).s.chunkLimit
      case Grow(data, _) => h == g + data
      case Grow0(data, _) => h == g + data + [0]
      case OneGrow(b, _) => h == g + [b]
      case OneGrowFast(b) => h == g + [b]
      case Blank(len, _) => |h| == |g| + len && forall i :: 0 <= i < |g| && i < |h| ==> h[i] == g[i]
      case BlankFast(len) => |h| == |g| + len && forall i :: 0 <= i < |g| && i < |h| ==> h[i] == g[i]
      case _ => true
  {
    GrowthRefines(c, op);
    if op.MakeRoom? { EnsureRoomKeepsInv(c, op.n, op.ch); }
  }

  /** Finish turns the growing bytes into the newest object, where they lie. */
  lemma FinishEffect(c: Config)
    requires Inv(c)
    ensures var d := Next(c, Finish);
      && |d.objs| == |c.objs| + 1 && d.objs[..|c.objs|] == c.objs
      && d.objs[|c.objs|].addr == c.s.objectBase
      && d.objs[|c.objs|].bytes == Growing(c.s)
      && d.objs[|c.objs|].home == c.s.chunk
      && Growing(d.s) == []
  {
    FinishKeepsInv(c);
  }

  /** A client write changes one byte of one object. */
  lemma PokeEffect(c: Config, i: nat, k: nat, b: byte)
    requires Inv(c) && Enabled(c, Poke(i, k, b))
    ensures var d := Next(c, Poke(i, k, b));
      && Growing(d.s) == Growing(c.s)
      && |d.objs| == |c.objs| && |d.objs[i].bytes| == |c.objs[i].bytes|
      && (forall j :: 0 <= j < |c.objs| ==> d.objs[j].addr == c.objs[j].addr)
      && (forall j :: 0 <= j < |c.objs| && j != i ==> d.objs[j].bytes == c.objs[j].bytes)
      && (forall l :: 0 <= l < |c.objs[i].bytes| ==>
            d.objs[i].bytes[l] == if l == k then b else c.objs[i].bytes[l])
  {
    PokeKeepsGrowing(c, i, k, b);
  }

  // ---------------------------------------------------------------- relocation

  /** The operation left chunk, base, limit and flag alone. */
  predicate Stays(s: State, t: State) {
    && t.chunk == s.chunk && t.chunkLimit == s.chunkLimit && t.objectBase == s.objectBase
    && t.maybeEmptyObject == s.maybeEmptyObject
  }

  /** The growing object is in the chosen chunk, at the first aligned address past its header. */
  predicate MovedTo(s: State, t: State, ch: Choice)
    requires s.chunk.Chunk?
  {
    && t.chunk == Chunk(ch.addr, ch.addr + 8 + |ch.fill|, if ch.replace then s.chunk.prev else s.chunk)
    && t.chunkLimit == ch.addr + 8 + |ch.fill|
    && ch.addr + 8 <= t.objectBase <= ch.addr + 8 + s.alignmentMask
    && t.objectBase % (s.alignmentMask + 1) == 0
    && t.maybeEmptyObject == ch.flag
  }

  lemma EnsureRoomRelocates(c: Config, n: int, ch: Choice)
    requires Inv(c) && (Fits(c.s, n) || ChoiceOk(c.s, n, ch))
    ensures c.s.nextFree + n <= c.s.chunkLimit ==> Stays(c.s, EnsureRoom(c.s, n, ch))
    ensures c.s.nextFree + n > c.s.chunkLimit ==> MovedTo(c.s, EnsureRoom(c.s, n, ch), ch)
  {
    AlignUpExact(ch.addr + CONTENTS_OFFSET, c.s.alignmentMask);
    AlignedIsMultiple(Start(ch.addr, c.s.alignmentMask), c.s.alignmentMask);
  }

  lemma AppendRelocates(c: Config, data: seq<byte>, ch: Choice)
    requires Inv(c) && (Fits(c.s, |data|) || ChoiceOk(c.s, |data|, ch))
    ensures var t := Append(EnsureRoom(c.s, |data|, ch), data);
      if c.s.nextFree + |data| <= c.s.chunkLimit then Stays(c.s, t) else MovedTo(c.s, t, ch)
  {
    EnsureRoomRelocates(c, |data|, ch);
  }

  /** A relocation happens exactly when the bytes to be added do not fit in the chunk. */
  lemma RelocationExact(c: Config, op: Op)
    requires Inv(c) && Enabled(c, op)
    ensures var s, t := c.s, Next(c, op).s;
      match op
      case MakeRoom(n, ch) => if s.nextFree + n <= s.chunkLimit then Stays(s, t) else MovedTo(s, t, ch)
      case Grow(data, ch) => if s.nextFree + |data| <= s.chunkLimit then Stays(s, t) else MovedTo(s, t, ch)
      case Grow0(data, ch) => if s.nextFree + |data| + 1 <= s.chunkLimit then Stays(s, t) else MovedTo(s, t, ch)
      case OneGrow(_, ch) => if s.nextFree + 1 <= s.chunkLimit then Stays(s, t) else MovedTo(s, t, ch)
      case Blank(len, ch) => if s.nextFree + len <= s.chunkLimit then Stays(s, t) else MovedTo(s, t, ch)
      case OneGrowFast(_) => Stays(s, t)
      case BlankFast(_) => Stays(s, t)
      case Poke(_, _, _) => Stays(s, t)
      case Finish => t.chunk == s.chunk && t.chunkLimit == s.chunkLimit
      case Free(_, _) => true
  {
    match op
    case MakeRoom(n, ch) => EnsureRoomRelocates(c, n, ch);
    case Grow(data, ch) => AppendRelocates(c, data, ch);
    case Grow0(data, ch) => AppendRelocates(c, data + [0], ch);
    case OneGrow(b, ch) => AppendRelocates(c, [b], ch);
    case Blank(len, ch) => EnsureRoomRelocates(c, len, ch);
    case _ =>
  }

  // ---------------------------------------------------------------- the empty-object flag

  /** Finish sets the flag exactly for an empty growing object; free keeps it on the fast path and
      takes the slow path's value otherwise. */
  lemma FlagExact(c: Config, op: Op)
    requires Inv(c) && Enabled(c, op)
    ensures op.Finish? ==>
      (Next(c, op).s.maybeEmptyObject <==> c.s.maybeEmptyObject || Growing(c.s) == [])
    ensures op.Free? ==>
      Next(c, op).s.maybeEmptyObject ==
      if c.s.chunk.addr < c.objs[op.i].addr < c.s.chunkLimit then c.s.maybeEmptyObject else op.flag
  {
    if op.Free? { FreeFindsHome(c, op.i, op.flag); }
  }

  /** No operation of the run relocates or takes the slow path of free. */
  ghost predicate Quiet(c: Config, ops: seq<Op>)
    requires Inv(c) && Runnable(c, ops)
    decreases |ops|
  {
    ops == [] ||
    (&& (ops[0].Free? ==> c.s.chunk.addr < c.objs[ops[0].i].addr < c.s.chunkLimit)
     && Next(c, ops[0]).s.chunk == c.s.chunk
     && Quiet(Next(c, ops[0]), ops[1..]))
  }

  /** Some finish of the run finds no growing bytes. */
  ghost predicate FinishesEmpty(c: Config, ops: seq<Op>)
    requires Inv(c) && Runnable(c, ops)
    decreases |ops|
  {
    ops != [] && ((ops[0].Finish? && Growing(c.s) == []) || FinishesEmpty(Next(c, ops[0]), ops[1..]))
  }

  /** While the stack stays in its chunk, the flag is set exactly if it was set at the start or an
      empty object has been finished since. */
  lemma {:induction false} FlagOverRuns(c: Config, ops: seq<Op>)
    requires Inv(c) && Runnable(c, ops) && Quiet(c, ops)
    ensures Run(c, ops).s.maybeEmptyObject <==> c.s.maybeEmptyObject || FinishesEmpty(c, ops)
    decreases |ops|
  {
    if ops == [] {
    } else {
      QuietStepKeepsFlag(c, ops[0]);
      FlagOverRuns(Next(c, ops[0]), ops[1..]);
    }
  }

  lemma QuietStepKeepsFlag(c: Config, op: Op)
    requires Inv(c) && Enabled(c, op)
    requires op.Free? ==> c.s.chunk.addr < c.objs[op.i].addr < c.s.chunkLimit
    requires Next(c, op).s.chunk == c.s.chunk
    ensures Next(c, op).s.maybeEmptyObject <==> c.s.maybeEmptyObject || (op.Finish? && Growing(c.s) == [])
  {
    FlagExact(c, op);
    RelocationExact(c, op);
    StartPastHeader(c.s.chunk.addr, c.s.alignmentMask);
  }

  // ---------------------------------------------------------------- memory

  /** The bytes an operation adds at next_free. */
  function AddedBytes(op: Op): seq<byte> {
    match op
    case Grow(data, _) => data
    case Grow0(data, _) => data + [0]
    case OneGrow(b, _) => [b]
    case OneGrowFast(b) => [b]
    case _ => []
  }

  lemma MovedKeepsByte(s: State, n: int, ch: Choice, a: nat)
    requires StateOk(s) && ChoiceOk(s, n, ch) && a in s.mem
    requires !(ch.addr + CONTENTS_OFFSET <= a < ch.addr + CONTENTS_OFFSET + |ch.fill|)
    ensures a in Moved(s, ch) && Moved(s, ch)[a] == s.mem[a]
  {
    var base := Start(ch.addr, s.alignmentMask);
    assert |Growing(s)| == s.nextFree - s.objectBase;
    assert ch.addr + CONTENTS_OFFSET <= base by { StartPastHeader(ch.addr, s.alignmentMask); }
    InsertionKeepsByte(s.mem, ch.addr + CONTENTS_OFFSET, ch.fill, base, Growing(s), a);
  }

  /** The new chunk lies outside the memory that was owned. */
  lemma OldBytesOutsideChoice(s: State, n: int, ch: Choice, a: nat)
    requires StateOk(s) && ChoiceOk(s, n, ch) && a in s.mem
    ensures !(ch.addr + CONTENTS_OFFSET <= a < ch.addr + CONTENTS_OFFSET + |ch.fill|)
  {
    assert Owned(s.chunk, a);
    ApartFromOwned(ch.addr, ch.addr + CONTENTS_OFFSET + |ch.fill|, s.chunk);
  }

  lemma ReleaseKeepsByte(m: Mem, c: Chunk, a: nat)
    requires c.Chunk? && a in Release(m, c)
    ensures a in m && Release(m, c)[a] == m[a]
  {
  }

  lemma NewChunkKeepsByte(s: State, n: int, ch: Choice, a: nat)
    requires StateOk(s) && ChoiceOk(s, n, ch) && a in s.mem && a in NewChunk(s, ch).mem
    ensures NewChunk(s, ch).mem[a] == s.mem[a]
  {
    OldBytesOutsideChoice(s, n, ch, a);
    MovedKeepsByte(s, n, ch, a);
    if ch.replace { ReleaseKeepsByte(Moved(s, ch), s.chunk, a); }
  }

  lemma EnsureRoomKeepsMemory(c: Config, n: int, ch: Choice, a: nat)
    requires Inv(c) && (Fits(c.s, n) || ChoiceOk(c.s, n, ch))
    requires a in c.s.mem && a in EnsureRoom(c.s, n, ch).mem
    ensures EnsureRoom(c.s, n, ch).mem[a] == c.s.mem[a]
    ensures !Fits(c.s, n) ==> !(ch.addr + CONTENTS_OFFSET <= a < ch.addr + CONTENTS_OFFSET + |ch.fill|)
  {
    if !Fits(c.s, n) {
      OldBytesOutsideChoice(c.s, n, ch, a);
      NewChunkKeepsByte(c.s, n, ch, a);
    }
  }

  lemma AppendKeepsMemory(c: Config, data: seq<byte>, ch: Choice, a: nat)
    requires Inv(c) && (Fits(c.s, |data|) || ChoiceOk(c.s, |data|, ch))
    requires var t := EnsureRoom(c.s, |data|, ch); a in c.s.mem && a in Append(t, data).mem
    requires c.s.nextFree + |data| <= c.s.chunkLimit ==> !(c.s.nextFree <= a < c.s.nextFree + |data|)
    ensures Append(EnsureRoom(c.s, |data|, ch), data).mem[a] == c.s.mem[a]
  {
    EnsureRoomKeepsMemory(c, |data|, ch, a);
    if !Fits(c.s, |data|) {
      StartPastHeader(ch.addr, c.s.alignmentMask);
      EnsureRoomKeepsInv(c, |data|, ch);
    }
  }

  /** An operation changes no byte that stays owned, except where it adds its bytes in the current
      chunk and where the client writes. */
  lemma MemoryKept(c: Config, op: Op, a: nat)
    requires Inv(c) && Enabled(c, op)
    requires a in c.s.mem && a in Next(c, op).s.mem
    requires op.Poke? ==> a != c.objs[op.i].addr + op.k
    requires c.s.nextFree + |AddedBytes(op)| <= c.s.chunkLimit ==>
      !(c.s.nextFree <= a < c.s.nextFree + |AddedBytes(op)|)
    ensures Next(c, op).s.mem[a] == c.s.mem[a]
  {
    match op
    case MakeRoom(n, ch) => EnsureRoomKeepsMemory(c, n, ch, a);
    case Grow(data, ch) => AppendKeepsMemory(c, data, ch, a);
    case Grow0(data, ch) => AppendKeepsMemory(c, data + [0], ch, a);
    case OneGrow(b, ch) => AppendKeepsMemory(c, [b], ch, a);
    case Blank(len, ch) => EnsureRoomKeepsMemory(c, len, ch, a);
    case Free(i, flag) => FreeFindsHome(c, i, flag);
    case _ =>
  }

  // ---------------------------------------------------------------- returned addresses

  /** The addresses one operation returns. */
  ghost function Value(c: Config, op: Op): seq<nat> {
    if op.Finish? then [c.s.objectBase] else []
  }

  ghost function Values(c: Config, ops: seq<Op>): seq<nat>
    requires Inv(c) && Runnable(c, ops)
    decreases |ops|
  {
    if ops == [] then [] else Value(c, ops[0]) + Values(Next(c, ops[0]), ops[1..])
  }

  function Finishes(ops: seq<Op>): nat {
    if ops == [] then 0 else (if ops[0].Finish? then 1 else 0) + Finishes(ops[1..])
  }

  lemma {:induction false} OneValuePerFinish(c: Config, ops: seq<Op>)
    requires Inv(c) && Runnable(c, ops)
    ensures |Values(c, ops)| == Finishes(ops)
    decreases |ops|
  {
    if ops == [] {
    } else {
      OneValuePerFinish(Next(c, ops[0]), ops[1..]);
    }
  }

  /** The configuration in which the n-th operation of a run happens. */
  ghost function ConfigAt(c: Config, ops: seq<Op>, n: nat): (r: Config)
    requires Inv(c) && Runnable(c, ops) && n < |ops|
    ensures Inv(r) && Enabled(r, ops[n])
    decreases |ops|
  {
    if n == 0 then c else ConfigAt(Next(c, ops[0]), ops[1..], n - 1)
  }

  function FinishesBefore(ops: seq<Op>, n: nat): nat
    requires n <= |ops|
  {
    if n == 0 then 0 else (if ops[0].Finish? then 1 else 0) + FinishesBefore(ops[1..], n - 1)
  }

  lemma ValuesStep(c: Config, ops: seq<Op>, k: nat)
    requires Inv(c) && Runnable(c, ops) && ops != [] && k < |Values(Next(c, ops[0]), ops[1..])|
    ensures var first := if ops[0].Finish? then 1 else 0;
      first + k < |Values(c, ops)| && Values(c, ops)[first + k] == Values(Next(c, ops[0]), ops[1..])[k]
  {
  }

  lemma {:induction false} ReturnedBase(c: Config, ops: seq<Op>, n: nat)
    requires Inv(c) && Runnable(c, ops) && n < |ops| && ops[n].Finish?
    ensures FinishesBefore(ops, n) < |Values(c, ops)|
    ensures Values(c, ops)[FinishesBefore(ops, n)] == ConfigAt(c, ops, n).s.objectBase
    decreases |ops|
  {
    if n == 0 {
    } else {
      var d, rest := Next(c, ops[0]), ops[1..];
      assert rest[n - 1] == ops[n];
      ReturnedBase(d, rest, n - 1);
      ValuesStep(c, ops, FinishesBefore(rest, n - 1));
    }
  }

  /** A run returns one address per finish: the address at which that finish leaves its object. */
  lemma ReturnedAddress(c: Config, ops: seq<Op>, n: nat)
    requires Inv(c) && Runnable(c, ops) && n < |ops| && ops[n].Finish?
    ensures |Values(c, ops)| == Finishes(ops) && FinishesBefore(ops, n) < Finishes(ops)
    ensures var d := Next(ConfigAt(c, ops, n), Finish);
      d.objs != [] && Values(c, ops)[FinishesBefore(ops, n)] == d.objs[|d.objs| - 1].addr
  {
    OneValuePerFinish(c, ops);
    ReturnedBase(c, ops, n);
    FinishEffect(ConfigAt(c, ops, n));
  }
}
