/**
What whole runs of the object stack guarantee: refinement of a stack of byte strings,
stable addresses, unwinding, alignment, room for the fast macros, and independence of how
a growing object was put together.
*/
module ObstackRuns {
  import opened Bits
  import opened Memory
  import opened Obstack
  import opened ObstackProofs
  import WordMacros

  // ---------------------------------------------------------------- runs

  /** One operation; the invariant survives it. */
  ghost function Next(c: Config, op: Op): (d: Config)
    requires Inv(c) && Enabled(c, op)
    ensures Inv(d)
  {
    StepKeepsInv(c, op);
    Step(c, op)
  }

  /** Every operation of the run is allowed where it occurs. */
  ghost predicate Runnable(c: Config, ops: seq<Op>)
    requires Inv(c)
    decreases |ops|
  {
    ops == [] ||
    (Enabled(c, ops[0]) && Runnable(Next(c, ops[0]), ops[1..]))
  }

  ghost function Run(c: Config, ops: seq<Op>): (r: Config)
    requires Inv(c) && Runnable(c, ops)
    ensures Inv(r)
    decreases |ops|
  {
    if ops == [] then c else Run(Next(c, ops[0]), ops[1..])
  }

  /** The stack as _obstack_begin leaves it (assumed): one chunk, nothing allocated. */
  function Begin(addr: nat, fill: seq<byte>, mask: nat, flag: bool): Config {
    var limit := addr + CONTENTS_OFFSET + |fill|;
    Config(
      State(Chunk(addr, limit, NoChunk), Start(addr, mask), Start(addr, mask), limit, mask, flag,
            Region(addr + CONTENTS_OFFSET, fill)),
      [])
  }

  lemma BeginEstablishesInv(addr: nat, fill: seq<byte>, mask: nat, flag: bool)
    requires WordMacros.PowerOfTwo(mask + 1)
    requires Start(addr, mask) <= addr + CONTENTS_OFFSET + |fill|
    ensures Inv(Begin(addr, fill, mask, flag))
    ensures Abstract(Begin(addr, fill, mask, flag)) == AbstractStack([], [])
    ensures var s := Begin(addr, fill, mask, flag).s;
      && s.chunk == Chunk(addr, addr + 8 + |fill|, NoChunk) && s.chunkLimit == addr + 8 + |fill|
      && s.objectBase == s.nextFree && s.objectBase % (mask + 1) == 0
      && addr + 8 <= s.objectBase <= addr + 8 + mask
      && s.alignmentMask == mask && s.maybeEmptyObject == flag
  {
    StartPastHeader(addr, mask);
    AlignUpExact(addr + CONTENTS_OFFSET, mask);
    AlignedIsMultiple(Start(addr, mask), mask);
  }

  /** Relocation is always possible: the statements about runs are not empty. */
  lemma SomeChoiceAllowed(s: State, n: nat)
    requires StateOk(s)
    ensures exists ch :: ChoiceOk(s, n, ch)
  {
    var addr := Top(s.chunk);
    var need := s.alignmentMask + (s.nextFree - s.objectBase) + n;
    var ch := Choice(addr, seq<byte>(need, _ => 0), false, true);
    AlignUpExact(addr + CONTENTS_OFFSET, s.alignmentMask);
    ApartAboveTop(addr, addr + CONTENTS_OFFSET + need, s.chunk);
    assert ChoiceOk(s, n, ch);
  }

  function Top(d: Chunk): nat {
    if d.NoChunk? then 0
    else var t := Top(d.prev); if d.limit > t then d.limit else t
  }

  lemma {:induction false} ApartAboveTop(lo: nat, hi: nat, d: Chunk)
    requires Top(d) <= lo
    ensures Apart(lo, hi, d)
  {
    if d.Chunk? { ApartAboveTop(lo, hi, d.prev); }
  }

  // ---------------------------------------------------------------- the abstract stack

  /** Finished byte strings, oldest first, and the one that is growing. */
  datatype AbstractStack = AbstractStack(finished: seq<seq<byte>>, growing: seq<byte>)

  function Contents(objs: seq<Obj>): (r: seq<seq<byte>>)
    ensures |r| == |objs|
    ensures forall i :: 0 <= i < |objs| ==> r[i] == objs[i].bytes
  {
    if objs == [] then [] else Contents(objs[..|objs| - 1]) + [objs[|objs| - 1].bytes]
  }

  ghost function Abstract(c: Config): AbstractStack
    requires c.s.objectBase <= c.s.nextFree
  {
    AbstractStack(Contents(c.objs), Growing(c.s))
  }

  /** The object stack as its documentation describes it; blank bytes are unspecified. */
  ghost predicate AbstractStep(a: AbstractStack, op: Op, b: AbstractStack) {
    match op
    case MakeRoom(_, _) => b == a
    case Grow(data, _) => b == a.(growing := a.growing + data)
    case Grow0(data, _) => b == a.(growing := a.growing + data + [0])
    case OneGrow(x, _) => b == a.(growing := a.growing + [x])
    case OneGrowFast(x) => b == a.(growing := a.growing + [x])
    case Blank(len, _) => b.finished == a.finished && Resized(a.growing, len, b.growing)
    case BlankFast(len) => b.finished == a.finished && Resized(a.growing, len, b.growing)
    case Finish => b == AbstractStack(a.finished + [a.growing], [])
    case Free(i, _) => i < |a.finished| && b == AbstractStack(a.finished[..i], [])
    case Poke(i, k, x) =>
      && i < |a.finished| && k < |a.finished[i]|
      && b == a.(finished := a.finished[i := WithByte(a.finished[i], k, x)])
  }

  /** `t` is `s` lengthened by `len` unspecified bytes, or shortened by -len bytes. */
  predicate Resized(s: seq<byte>, len: int, t: seq<byte>) {
    |t| == |s| + len && (if len >= 0 then s <= t else t <= s)
  }

  ghost predicate AbstractRun(a: AbstractStack, ops: seq<Op>, b: AbstractStack)
    decreases |ops|
  {
    if ops == [] then a == b
    else exists m :: AbstractStep(a, ops[0], m) && AbstractRun(m, ops[1..], b)
  }

  lemma AdvanceResizes(s: State, len: int)
    requires s.objectBase <= s.nextFree && s.objectBase <= s.nextFree + len
    ensures Resized(Growing(s), len, Growing(s.(nextFree := s.nextFree + len)))
  {
    var n := s.nextFree - s.objectBase;
    if len >= 0 {
      SliceConcat(s.mem, s.objectBase, n, len);
    } else {
      SliceConcat(s.mem, s.objectBase, n + len, -len);
    }
  }

  lemma ContentsExact(objs: seq<Obj>, r: seq<seq<byte>>)
    requires |r| == |objs| && forall i :: 0 <= i < |objs| ==> r[i] == objs[i].bytes
    ensures Contents(objs) == r
  {
  }

  lemma GrowthRefines(c: Config, op: Op)
    requires Inv(c) && Enabled(c, op)
    requires op.MakeRoom? || op.Grow? || op.Grow0? || op.OneGrow? || op.Blank? || op.OneGrowFast? || op.BlankFast?
    ensures AbstractStep(Abstract(c), op, Abstract(Next(c, op)))
  {
    match op
    case MakeRoom(n, ch) => EnsureRoomKeepsInv(c, n, ch);
    case Grow(data, ch) => RoomThenAppend(c, data, ch);
    case Grow0(data, ch) =>
      RoomThenAppend(c, data + [0], ch);
      assert Growing(c.s) + (data + [0]) == Growing(c.s) + data + [0];
    case OneGrow(b, ch) => RoomThenAppend(c, [b], ch);
    case Blank(len, ch) =>
      EnsureRoomKeepsInv(c, len, ch);
      AdvanceResizes(EnsureRoom(c.s, len, ch), len);
    case OneGrowFast(b) => AppendGrows(c.s, [b]);
    case BlankFast(len) => AdvanceResizes(c.s, len);
  }

  lemma FinishRefines(c: Config)
    requires Inv(c)
    ensures AbstractStep(Abstract(c), Finish, Abstract(Next(c, Finish)))
  {
    FinishKeepsInv(c);
    ContentsExact(Next(c, Finish).objs, Contents(c.objs) + [Growing(c.s)]);
  }

  lemma FreeRefines(c: Config, i: nat, flag: bool)
    requires Inv(c) && Enabled(c, Free(i, flag))
    ensures AbstractStep(Abstract(c), Free(i, flag), Abstract(Next(c, Free(i, flag))))
  {
    FreeFindsHome(c, i, flag);
    ContentsExact(c.objs[..i], Contents(c.objs)[..i]);
  }

  lemma PokeRefines(c: Config, i: nat, k: nat, b: byte)
    requires Inv(c) && Enabled(c, Poke(i, k, b))
    ensures AbstractStep(Abstract(c), Poke(i, k, b), Abstract(Next(c, Poke(i, k, b))))
  {
    PokeKeepsGrowing(c, i, k, b);
    ContentsExact(Next(c, Poke(i, k, b)).objs, Contents(c.objs)[i := WithByte(Contents(c.objs)[i], k, b)]);
  }

  /** One operation on the real stack is that operation on the abstract one. */
  lemma StepRefines(c: Config, op: Op)
    requires Inv(c) && Enabled(c, op)
    ensures AbstractStep(Abstract(c), op, Abstract(Next(c, op)))
  {
    match op
    case Finish => FinishRefines(c);
    case Free(i, flag) => FreeRefines(c, i, flag);
    case Poke(i, k, b) => PokeRefines(c, i, k, b);
    case _ => GrowthRefines(c, op);
  }

  /** Every run refines the abstract stack, whatever chunks the environment hands out. */
  lemma {:induction false} RunRefines(c: Config, ops: seq<Op>)
    requires Inv(c) && Runnable(c, ops)
    ensures AbstractRun(Abstract(c), ops, Abstract(Run(c, ops)))
    decreases |ops|
  {
    if ops == [] {
    } else {
      StepRefines(c, ops[0]);
      RunRefines(Next(c, ops[0]), ops[1..]);
    }
  }

  /** From a new stack on, every run refines the abstract stack that starts empty. */
  lemma WholeRunRefines(addr: nat, fill: seq<byte>, mask: nat, flag: bool, ops: seq<Op>)
    requires WordMacros.PowerOfTwo(mask + 1)
    requires Start(addr, mask) <= addr + CONTENTS_OFFSET + |fill|
    requires Inv(Begin(addr, fill, mask, flag)) && Runnable(Begin(addr, fill, mask, flag), ops)
    ensures AbstractRun(AbstractStack([], []), ops, Abstract(Run(Begin(addr, fill, mask, flag), ops)))
  {
    BeginEstablishesInv(addr, fill, mask, flag);
    RunRefines(Begin(addr, fill, mask, flag), ops);
  }

  // ---------------------------------------------------------------- addresses never change

  /** The run frees or overwrites none of the first `n` objects. */
  predicate Spares(n: nat, ops: seq<Op>) {
    forall k :: 0 <= k < |ops| ==>
      && (ops[k].Free? ==> ops[k].i >= n)
      && (ops[k].Poke? ==> ops[k].i >= n)
  }

  /** The first `n` objects keep their addresses and their chunks, and memory keeps their bytes. */
  lemma {:induction false} FinishedObjectsStay(c: Config, ops: seq<Op>, n: nat)
    requires Inv(c) && Runnable(c, ops) && n <= |c.objs| && Spares(n, ops)
    ensures n <= |Run(c, ops).objs| && Run(c, ops).objs[..n] == c.objs[..n]
    ensures forall i :: 0 <= i < n ==>
      var o := c.objs[i];
      Slice(Run(c, ops).s.mem, o.addr, |o.bytes|) == Slice(c.s.mem, o.addr, |o.bytes|) == o.bytes
    decreases |ops|
  {
    if ops == [] {
    } else {
      var d := Next(c, ops[0]);
      assert n <= |d.objs| && d.objs[..n] == c.objs[..n];
      FinishedObjectsStay(d, ops[1..], n);
    }
    var r := Run(c, ops);
    forall i | 0 <= i < n
      ensures var o := c.objs[i];
        Slice(r.s.mem, o.addr, |o.bytes|) == Slice(c.s.mem, o.addr, |o.bytes|) == o.bytes
    {
      assert r.objs[..n][i] == c.objs[..n][i];
      assert ObjOk(c.s, c.objs[i]) && ObjOk(r.s, r.objs[i]);
    }
  }

  // ---------------------------------------------------------------- unwinding

  /** Freeing an object makes it the empty growing object, in the chunk it was finished in,
      and leaves exactly the objects finished before it: fast path, walk down the chain and
      empty object at a chunk's limit alike. */
  lemma FreeUnwinds(c: Config, i: nat, flag: bool)
    requires Inv(c) && Enabled(c, Free(i, flag))
    ensures var d := Next(c, Free(i, flag));
      && Abstract(d) == AbstractStack(Contents(c.objs)[..i], [])
      && d.s.objectBase == d.s.nextFree == c.objs[i].addr
      && d.s.chunk == c.objs[i].home && d.s.chunkLimit == c.objs[i].home.limit
  {
    FreeRefines(c, i, flag);
    FreeFindsHome(c, i, flag);
  }

  /** The fast path is taken exactly for objects of the current chunk that do not sit at its very
      end; only an empty object can sit there, and it takes the slow path in its own chunk. */
  lemma FreePathExact(c: Config, i: nat)
    requires Inv(c) && i < |c.objs|
    ensures FastFree(c.s, c.objs[i].addr) <==> c.objs[i].home == c.s.chunk && c.objs[i].addr != c.s.chunkLimit
    ensures c.objs[i].home == c.s.chunk && c.objs[i].addr == c.s.chunkLimit ==> c.objs[i].bytes == []
    ensures FindChunk(c.s.chunk, c.objs[i].addr) == c.objs[i].home
  {
    var o := c.objs[i];
    assert ObjOk(c.s, o);
    StartPastHeader(o.home.addr, c.s.alignmentMask);
    FindChunkIsHome(o.home, c.s.chunk, o.addr, c.s.alignmentMask);
  }

  /** Finish, do anything that spares the older objects, free the finished object: the stack is
      back where it was, with an empty growing object at the address Finish returned. */
  lemma UnwindRestores(c: Config, ops: seq<Op>, flag: bool)
    requires Inv(c) && Runnable(Next(c, Finish), ops)
    requires Spares(|c.objs| + 1, ops)
    requires Enabled(Run(Next(c, Finish), ops), Free(|c.objs|, flag))
    ensures var d := Next(Run(Next(c, Finish), ops), Free(|c.objs|, flag));
      && d.objs == c.objs
      && d.s.chunk == c.s.chunk
      && d.s.objectBase == d.s.nextFree == c.s.objectBase
  {
    var n := |c.objs|;
    var e := Next(c, Finish);
    var r := Run(e, ops);
    FinishedObjectsStay(e, ops, n + 1);
    PrefixOfPrefix(e.objs, r.objs, n);
    FreeUnwinds(r, n, flag);
  }

  lemma PrefixOfPrefix(a: seq<Obj>, b: seq<Obj>, n: nat)
    requires n + 1 <= |a| && n + 1 <= |b| && a[..n + 1] == b[..n + 1]
    ensures a[..n] == b[..n] && a[n] == b[n]
  {
    assert a[..n] == a[..n + 1][..n] && a[n] == a[..n + 1][n];
    assert b[..n] == b[..n + 1][..n] && b[n] == b[..n + 1][n];
  }

  // ---------------------------------------------------------------- empty objects

  /** When the growing object starts its chunk, a live object in that chunk is an empty one at
      the same address, and the flag announces it. */
  lemma FlagAnnouncesEmptyObjects(c: Config, i: nat)
    requires Inv(c) && i < |c.objs| && c.objs[i].home == c.s.chunk
    requires c.s.objectBase == Start(c.s.chunk.addr, c.s.alignmentMask)
    ensures c.objs[i].bytes == [] && c.objs[i].addr == c.s.objectBase && c.s.maybeEmptyObject
  {
    assert ObjOk(c.s, c.objs[i]);
  }

  /** Relocation keeps the chunk of every live object, the empty ones included. */
  lemma RelocationStrandsNoObject(c: Config, n: int, ch: Choice, i: nat)
    requires Inv(c) && ChoiceOk(c.s, n, ch) && i < |c.objs|
    ensures OnChain(c.objs[i].home, NewChunk(c.s, ch).chunk)
    ensures ch.replace ==> c.objs[i].home != c.s.chunk
  {
    NewChunkKeepsObject(c, n, ch, i);
    if ch.replace { ReplacedChunkHoldsNoObject(c, i); }
  }

  /** Without the flag that protection is lost: clearing it lets relocation free the chunk of a
      live empty object. */
  lemma FlagIsNeeded(c: Config, n: int, ch: Choice, i: nat)
    requires Inv(c) && i < |c.objs| && c.objs[i].home == c.s.chunk
    requires ch.replace && ChoiceOk(c.s.(maybeEmptyObject := false), n, ch)
    ensures !OnChain(c.objs[i].home, NewChunk(c.s.(maybeEmptyObject := false), ch).chunk)
  {
    StartPastHeader(c.s.chunk.addr, c.s.alignmentMask);
    NotBeforeItself(c.s.chunk);
  }

  // ---------------------------------------------------------------- alignment

  lemma {:induction false} RunKeepsMask(c: Config, ops: seq<Op>)
    requires Inv(c) && Runnable(c, ops)
    ensures Run(c, ops).s.alignmentMask == c.s.alignmentMask
    decreases |ops|
  {
    if ops == [] {
    } else {
      if ops[0].Free? { FreeFindsHome(c, ops[0].i, ops[0].flag); }
      RunKeepsMask(Next(c, ops[0]), ops[1..]);
    }
  }

  /** In every reachable state every non-empty object, finished or growing, starts at a multiple
      of mask + 1; a growing object that does not is empty and has no room where it is. */
  lemma AlignmentOverRuns(addr: nat, fill: seq<byte>, mask: nat, flag: bool, ops: seq<Op>)
    requires WordMacros.PowerOfTwo(mask + 1)
    requires Start(addr, mask) <= addr + CONTENTS_OFFSET + |fill|
    requires Inv(Begin(addr, fill, mask, flag)) && Runnable(Begin(addr, fill, mask, flag), ops)
    ensures var r := Run(Begin(addr, fill, mask, flag), ops);
      && (forall i :: 0 <= i < |r.objs| && r.objs[i].bytes != [] ==> r.objs[i].addr % (mask + 1) == 0)
      && (r.s.objectBase % (mask + 1) == 0 || (Growing(r.s) == [] && !Fits(r.s, 1)))
  {
    var c := Begin(addr, fill, mask, flag);
    RunKeepsMask(c, ops);
    var r := Run(c, ops);
    forall i | 0 <= i < |r.objs| && r.objs[i].bytes != [] ensures r.objs[i].addr % (mask + 1) == 0 {
      assert ObjOk(r.s, r.objs[i]);
      AlignedIsMultiple(r.objs[i].addr, mask);
    }
    AlignedIsMultiple(r.s.objectBase, mask);
  }

  // ---------------------------------------------------------------- the fast macros

  /** Only obstack_1grow_fast and growing uses of obstack_blank_fast. */
  predicate FastOnly(ops: seq<Op>) {
    forall k :: 0 <= k < |ops| ==> ops[k].OneGrowFast? || (ops[k].BlankFast? && ops[k].len >= 0)
  }

  function FastBytes(ops: seq<Op>): nat
    requires FastOnly(ops)
  {
    if ops == [] then 0
    else (if ops[0].OneGrowFast? then 1 else ops[0].len) + FastBytes(ops[1..])
  }

  lemma {:induction false} FastOpsStayInside(c: Config, ops: seq<Op>)
    requires Inv(c) && FastOnly(ops) && Fits(c.s, FastBytes(ops))
    ensures Runnable(c, ops)
    ensures Run(c, ops).s.chunk == c.s.chunk && Run(c, ops).s.objectBase == c.s.objectBase
    ensures Run(c, ops).s.nextFree == c.s.nextFree + FastBytes(ops)
    decreases |ops|
  {
    if ops == [] {
    } else {
      FastOpsStayInside(Next(c, ops[0]), ops[1..]);
    }
  }

  /** After obstack_make_room(n), fast operations adding at most n bytes need no further check. */
  lemma MakeRoomCoversFastOps(c: Config, n: nat, ch: Choice, ops: seq<Op>)
    requires Inv(c) && Enabled(c, MakeRoom(n, ch))
    requires FastOnly(ops) && FastBytes(ops) <= n
    ensures var d := Next(c, MakeRoom(n, ch));
      && Runnable(d, ops)
      && Run(d, ops).s.chunk == d.s.chunk
      && Run(d, ops).s.nextFree == d.s.nextFree + FastBytes(ops) <= d.s.chunkLimit
  {
    EnsureRoomKeepsInv(c, n, ch);
    FastOpsStayInside(Next(c, MakeRoom(n, ch)), ops);
  }

  // ---------------------------------------------------------------- partition independence

  predicate Grows(op: Op) { op.Grow? || op.Grow0? || op.OneGrow? || op.OneGrowFast? }

  predicate GrowsOnly(ops: seq<Op>) { forall k :: 0 <= k < |ops| ==> Grows(ops[k]) }

  function GrownBytes(op: Op): seq<byte>
    requires Grows(op)
  {
    match op
    case Grow(data, _) => data
    case Grow0(data, _) => data + [0]
    case OneGrow(b, _) => [b]
    case OneGrowFast(b) => [b]
  }

  function Pieces(ops: seq<Op>): seq<byte>
    requires GrowsOnly(ops)
  {
    if ops == [] then [] else GrownBytes(ops[0]) + Pieces(ops[1..])
  }

  lemma GrowthAppends(c: Config, op: Op)
    requires Inv(c) && Enabled(c, op) && Grows(op)
    ensures Growing(Next(c, op).s) == Growing(c.s) + GrownBytes(op)
    ensures Next(c, op).objs == c.objs
  {
    GrowthRefines(c, op);
    if op.Grow0? { ConcatAssociative(Growing(c.s), op.data, [0]); }
  }

  lemma ConcatAssociative(a: seq<byte>, b: seq<byte>, c: seq<byte>)
    ensures a + b + c == a + (b + c)
  {
  }

  lemma {:induction false} PiecesAccumulate(c: Config, ops: seq<Op>)
    requires Inv(c) && Runnable(c, ops) && GrowsOnly(ops)
    ensures Growing(Run(c, ops).s) == Growing(c.s) + Pieces(ops)
    ensures Run(c, ops).objs == c.objs
    decreases |ops|
  {
    if ops == [] {
    } else {
      GrowthAppends(c, ops[0]);
      PiecesAccumulate(Next(c, ops[0]), ops[1..]);
      ConcatAssociative(Growing(c.s), GrownBytes(ops[0]), Pieces(ops[1..]));
    }
  }

  /** The bytes of the object that Finish would make now. */
  ghost function FinishedBytes(c: Config): (r: seq<byte>)
    requires Inv(c)
    ensures r == Growing(c.s)
  {
    Next(c, Finish).objs[|c.objs|].bytes
  }

  /** However a byte string is split into growth operations, and however often the object is
      relocated on the way, it finishes to the bytes that one obstack_copy of it makes. */
  lemma PartitionIndependence(c: Config, ops: seq<Op>, ch: Choice)
    requires Inv(c) && Runnable(c, ops) && GrowsOnly(ops)
    requires Enabled(c, Grow(Pieces(ops), ch))
    ensures FinishedBytes(Run(c, ops)) == Growing(c.s) + Pieces(ops)
    ensures FinishedBytes(Run(c, ops)) == FinishedBytes(Next(c, Grow(Pieces(ops), ch)))
  {
    PiecesAccumulate(c, ops);
    GrowthAppends(c, Grow(Pieces(ops), ch));
  }

  lemma {:induction false} PiecesAppend(ops: seq<Op>, op: Op)
    requires GrowsOnly(ops) && Grows(op)
    ensures GrowsOnly(ops + [op]) && Pieces(ops + [op]) == Pieces(ops) + GrownBytes(op)
    decreases |ops|
  {
    if ops == [] {
      assert ops + [op] == [op];
      assert Pieces([op]) == GrownBytes(op) + Pieces([]);
    } else {
      assert (ops + [op])[1..] == ops[1..] + [op];
      PiecesAppend(ops[1..], op);
    }
  }

  /** Ending with obstack_grow0 makes those bytes and exactly one NUL, as obstack_copy0 does. */
  lemma PartitionIndependence0(c: Config, ops: seq<Op>, tail: seq<byte>, ch0: Choice, ch: Choice)
    requires Inv(c) && GrowsOnly(ops) && Runnable(c, ops + [Grow0(tail, ch0)])
    requires Enabled(c, Grow0(Pieces(ops) + tail, ch))
    ensures FinishedBytes(Run(c, ops + [Grow0(tail, ch0)])) == Growing(c.s) + Pieces(ops) + tail + [0]
    ensures FinishedBytes(Run(c, ops + [Grow0(tail, ch0)])) == FinishedBytes(Next(c, Grow0(Pieces(ops) + tail, ch)))
  {
    PiecesAppend(ops, Grow0(tail, ch0));
    PiecesAccumulate(c, ops + [Grow0(tail, ch0)]);
    GrowthAppends(c, Grow0(Pieces(ops) + tail, ch));
    ConcatAssociative(Pieces(ops), tail, [0]);
    ConcatAssociative(Growing(c.s), Pieces(ops), tail);
    ConcatAssociative(Growing(c.s), Pieces(ops) + tail, [0]);
  }
}
