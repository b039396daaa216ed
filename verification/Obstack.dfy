/**
The object stack of obstack.h, on values: the control block, its chain of chunks in a flat
byte memory, and one transition per macro.

Pointers are natural numbers.  The two functions whose bodies the header leaves to the C
library, _obstack_newchunk and the slow path of _obstack_free, are modelled by what the
header's prose promises; everything they may decide freely is a `Choice` or a flag that the
environment supplies with the operation, so that every statement holds for all of them.
*/
module Obstack {
  import opened Bits
  import opened Memory
  import WordMacros

  /** Offset of `contents` in struct _obstack_chunk on the 32-bit target. */
  const CONTENTS_OFFSET: nat := 8

  /** A chunk and, through `prev`, the chain of older chunks. */
  datatype Chunk = NoChunk | Chunk(addr: nat, limit: nat, prev: Chunk)

  /** struct obstack (without `temp`) and the memory of its chunks. */
  datatype State = State(
    chunk: Chunk,
    objectBase: nat,
    nextFree: nat,
    chunkLimit: nat,
    alignmentMask: nat,
    maybeEmptyObject: bool,
    mem: Mem)

  /** What _obstack_newchunk may choose: where the new chunk is, what its uninitialised bytes
      are, whether the old chunk is freed, and the new value of the empty-object flag. */
  datatype Choice = Choice(addr: nat, fill: seq<byte>, replace: bool, flag: bool)

  /** A finished object and the chunk it was finished in. */
  datatype Obj = Obj(addr: nat, bytes: seq<byte>, home: Chunk) {
    function End(): nat { addr + |bytes| }
  }

  /** The control block together with the finished, not yet freed objects, oldest first. */
  datatype Config = Config(s: State, objs: seq<Obj>)

  datatype Op =
    | MakeRoom(n: int, ch: Choice)
    | Grow(data: seq<byte>, ch: Choice)
    | Grow0(data: seq<byte>, ch: Choice)
    | OneGrow(b: byte, ch: Choice)
    | Blank(len: int, ch: Choice)
    | OneGrowFast(b: byte)
    | BlankFast(len: int)
    | Finish
    | Free(i: nat, flag: bool)
    | Poke(i: nat, k: nat, b: byte)

  // ---------------------------------------------------------------- alignment

  /** p rounded with the mask: (p + mask) & ~mask, the complement removing the masked part. */
  function AlignUp(p: nat, mask: nat): (r: nat) {
    AndBounded(p + mask, mask);
    p + mask - And(p + mask, mask)
  }

  /** The low bits that the mask names are clear in the address. */
  ghost predicate Aligned(p: nat, mask: nat) { And(p, mask) == 0 }

  /** Where objects begin in the chunk at `addr`: the first aligned address of `contents`. */
  function Start(addr: nat, mask: nat): nat { AlignUp(addr + CONTENTS_OFFSET, mask) }

  // ---------------------------------------------------------------- the chain of chunks

  /** `c` is `d` or one of the chunks before it. */
  predicate OnChain(c: Chunk, d: Chunk) {
    d.Chunk? && (c == d || OnChain(c, d.prev))
  }

  /** No chunk of the chain overlaps [lo, hi). */
  predicate Apart(lo: nat, hi: nat, d: Chunk) {
    d.Chunk? ==> (hi <= d.addr || d.limit <= lo) && Apart(lo, hi, d.prev)
  }

  predicate ChainOk(d: Chunk, mask: nat) {
    d.Chunk? ==>
      && Start(d.addr, mask) <= d.limit
      && Apart(d.addr, d.limit, d.prev)
      && ChainOk(d.prev, mask)
  }

  /** `a` lies in the object area of a chunk of the chain. */
  predicate Owned(d: Chunk, a: nat) {
    d.Chunk? && (d.addr + CONTENTS_OFFSET <= a < d.limit || Owned(d.prev, a))
  }

  // ---------------------------------------------------------------- transitions

  /** The bytes of the growing object. */
  function Growing(s: State): seq<byte>
    requires s.objectBase <= s.nextFree
  {
    Slice(s.mem, s.objectBase, s.nextFree - s.objectBase)
  }

  /** Contract of _obstack_newchunk (assumed): the new chunk is disjoint from every chunk of
      the stack and holds the growing object and `n` more bytes from an aligned start.  The
      old chunk may go only if it holds nothing but the growing object and the flag does not
      forbid it. */
  predicate ChoiceOk(s: State, n: int, ch: Choice)
    requires s.objectBase <= s.nextFree && s.chunk.Chunk?
  {
    var limit := ch.addr + CONTENTS_OFFSET + |ch.fill|;
    && Start(ch.addr, s.alignmentMask) + (s.nextFree - s.objectBase) + n <= limit
    && Start(ch.addr, s.alignmentMask) + (s.nextFree - s.objectBase) <= limit
    && Apart(ch.addr, limit, s.chunk)
    && (ch.replace ==> s.objectBase == Start(s.chunk.addr, s.alignmentMask) && !s.maybeEmptyObject)
  }

  /** The memory without the object area of one chunk. */
  function Release(m: Mem, c: Chunk): Mem
    requires c.Chunk?
  {
    map a | a in m && !(c.addr + CONTENTS_OFFSET <= a < c.limit) :: m[a]
  }

  /** The memory with the new chunk in it and the growing object copied to its start. */
  function Moved(s: State, ch: Choice): Mem
    requires s.objectBase <= s.nextFree
  {
    Store(s.mem + Region(ch.addr + CONTENTS_OFFSET, ch.fill), Start(ch.addr, s.alignmentMask), Growing(s))
  }

  /** _obstack_newchunk: the growing object moves to the start of the new chunk. */
  function NewChunk(s: State, ch: Choice): State
    requires s.objectBase <= s.nextFree && s.chunk.Chunk?
  {
    var base := Start(ch.addr, s.alignmentMask);
    var limit := ch.addr + CONTENTS_OFFSET + |ch.fill|;
    State(
      Chunk(ch.addr, limit, if ch.replace then s.chunk.prev else s.chunk),
      base, base + (s.nextFree - s.objectBase), limit, s.alignmentMask, ch.flag,
      if ch.replace then Release(Moved(s, ch), s.chunk) else Moved(s, ch))
  }

  predicate Fits(s: State, n: int) { s.nextFree + n <= s.chunkLimit }

  function EnsureRoom(s: State, n: int, ch: Choice): State
    requires s.objectBase <= s.nextFree && s.chunk.Chunk?
  {
    if Fits(s, n) then s else NewChunk(s, ch)
  }

  function Append(s: State, data: seq<byte>): State {
    s.(mem := Store(s.mem, s.nextFree, data), nextFree := s.nextFree + |data|)
  }

  function FinishState(s: State): State
    requires s.chunk.Chunk?
  {
    var up := AlignUp(s.nextFree, s.alignmentMask);
    var next := if up > s.chunkLimit then s.chunkLimit else up;
    s.(maybeEmptyObject := s.maybeEmptyObject || s.nextFree == s.objectBase,
       nextFree := next, objectBase := next)
  }

  /** The youngest chunk whose object area, one past its end included, contains `a`. */
  function FindChunk(d: Chunk, a: nat): Chunk {
    if d.NoChunk? then NoChunk
    else if d.addr < a <= d.limit then d
    else FindChunk(d.prev, a)
  }

  predicate FastFree(s: State, a: nat)
    requires s.chunk.Chunk?
  {
    s.chunk.addr < a < s.chunkLimit
  }

  /** The slow path of obstack_free (assumed contract): every chunk younger than the one that
      holds `a` is freed, and `flag` becomes the empty-object flag. */
  function SlowFree(s: State, a: nat, flag: bool): State {
    var t := FindChunk(s.chunk, a);
    if t.NoChunk? then s
    else
      State(t, a, a, t.limit, s.alignmentMask, flag, map x | x in s.mem && Owned(t, x) :: s.mem[x])
  }

  /** obstack_free. */
  function FreeState(s: State, a: nat, flag: bool): State
    requires s.chunk.Chunk?
  {
    if FastFree(s, a) then s.(objectBase := a, nextFree := a) else SlowFree(s, a, flag)
  }

  // ---------------------------------------------------------------- invariant

  ghost predicate OwnsExactly(m: Mem, d: Chunk) {
    forall a :: a in m <==> Owned(d, a)
  }

  ghost predicate StateOk(s: State) {
    && WordMacros.PowerOfTwo(s.alignmentMask + 1)
    && s.chunk.Chunk?
    && s.chunkLimit == s.chunk.limit
    && ChainOk(s.chunk, s.alignmentMask)
    && OwnsExactly(s.mem, s.chunk)
    && Start(s.chunk.addr, s.alignmentMask) <= s.objectBase <= s.nextFree <= s.chunkLimit
    && (Aligned(s.objectBase, s.alignmentMask) || s.objectBase == s.chunkLimit)
  }

  /** A live object lies inside its chunk, holds its bytes, starts aligned unless it is an empty
      object at a clipped limit, and in the current chunk lies below the growing object; an
      empty object of the current chunk is announced by the flag. */
  ghost predicate ObjOk(s: State, o: Obj) {
    && o.home.Chunk? && OnChain(o.home, s.chunk)
    && Start(o.home.addr, s.alignmentMask) <= o.addr && o.End() <= o.home.limit
    && (Aligned(o.addr, s.alignmentMask) || o.addr == o.home.limit)
    && Slice(s.mem, o.addr, |o.bytes|) == o.bytes
    && (o.home == s.chunk ==> o.End() <= s.objectBase)
    && (o.home == s.chunk && o.bytes == [] ==> s.maybeEmptyObject)
  }

  /** `o` was finished before `p`: lower in the same chunk, or in an older chunk. */
  ghost predicate Below(o: Obj, p: Obj) {
    if o.home == p.home then o.End() <= p.addr
    else p.home.Chunk? && OnChain(o.home, p.home.prev)
  }

  ghost predicate Inv(c: Config) {
    && StateOk(c.s)
    && (forall i :: 0 <= i < |c.objs| ==> ObjOk(c.s, c.objs[i]))
    && (forall i, j :: 0 <= i < j < |c.objs| ==> Below(c.objs[i], c.objs[j]))
  }

  // ---------------------------------------------------------------- steps and runs

  /** What a caller, and the environment behind it, must respect for one operation. */
  ghost predicate Enabled(c: Config, op: Op)
    requires Inv(c)
  {
    match op
    case MakeRoom(n, ch) => Fits(c.s, n) || ChoiceOk(c.s, n, ch)
    case Grow(data, ch) => Fits(c.s, |data|) || ChoiceOk(c.s, |data|, ch)
    case Grow0(data, ch) => Fits(c.s, |data| + 1) || ChoiceOk(c.s, |data| + 1, ch)
    case OneGrow(b, ch) => Fits(c.s, 1) || ChoiceOk(c.s, 1, ch)
    case Blank(len, ch) =>
      && c.s.objectBase <= c.s.nextFree + len
      && (Fits(c.s, len) || ChoiceOk(c.s, len, ch))
    case OneGrowFast(b) => Fits(c.s, 1)
    case BlankFast(len) => c.s.objectBase <= c.s.nextFree + len && Fits(c.s, len)
    case Finish => true
    case Free(i, flag) =>
      && i < |c.objs|
      && (!FastFree(c.s, c.objs[i].addr) && !flag ==>
            forall j :: 0 <= j < i && c.objs[j].home == c.objs[i].home ==> c.objs[j].bytes != [])
    case Poke(i, k, b) => i < |c.objs| && k < |c.objs[i].bytes|
  }

  function Step(c: Config, op: Op): Config
    requires Inv(c) && Enabled(c, op)
  {
    var s := c.s;
    match op
    case MakeRoom(n, ch) => c.(s := EnsureRoom(s, n, ch))
    case Grow(data, ch) => c.(s := Append(EnsureRoom(s, |data|, ch), data))
    case Grow0(data, ch) => c.(s := Append(EnsureRoom(s, |data| + 1, ch), data + [0]))
    case OneGrow(b, ch) => c.(s := Append(EnsureRoom(s, 1, ch), [b]))
    case Blank(len, ch) =>
      var t := EnsureRoom(s, len, ch);
      assert t.nextFree + len >= 0;
      c.(s := t.(nextFree := t.nextFree + len))
    case OneGrowFast(b) => c.(s := Append(s, [b]))
    case BlankFast(len) => c.(s := s.(nextFree := s.nextFree + len))
    case Finish => Config(FinishState(s), c.objs + [Obj(s.objectBase, Growing(s), s.chunk)])
    case Free(i, flag) => Config(FreeState(s, c.objs[i].addr, flag), c.objs[..i])
    case Poke(i, k, b) =>
      var o := c.objs[i];
      Config(s.(mem := Store(s.mem, o.addr + k, [b])), c.objs[i := o.(bytes := WithByte(o.bytes, k, b))])
  }
}
