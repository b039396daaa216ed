/**
The control block as an object that the macros update in place, with both macro families:
the GNU statement expressions (`Gnu...`) and the portable comma expressions (`Portable...`),
which go through the `temp` slot.
*/
module ObstackMacros {
  import opened Bits
  import opened Memory
  import opened Obstack
  import opened ObstackProofs
  import opened ObstackEffects
  import opened ObstackRuns
  import WordMacros

  /** `live` lists the addresses of the live objects. */
  ghost predicate Tracks(live: seq<nat>, objs: seq<Obj>) {
    |live| == |objs| && forall i :: 0 <= i < |objs| ==> live[i] == objs[i].addr
  }

  lemma TwoSteps(c: Config, a: Op, b: Op)
    requires Inv(c) && Runnable(c, [a, b])
    ensures Enabled(c, a) && Enabled(Next(c, a), b)
    ensures Run(c, [a, b]) == Next(Next(c, a), b)
    ensures Values(c, [a, b]) == Value(c, a) + Value(Next(c, a), b)
  {
    assert [a, b][1..] == [b] && [b][1..] == [];
    assert Run(Next(c, a), [b]) == Next(Next(c, a), b);
    assert Values(Next(c, a), [b]) == Value(Next(c, a), b);
  }

  lemma AppendAdjacent(s: State, first: seq<byte>, second: seq<byte>)
    requires StateOk(s) && Fits(s, |first| + |second|)
    ensures Append(Append(s, first), second) == Append(s, first + second)
    ensures Owns(s.mem, s.nextFree, |first|)
    ensures Owns(Append(s, first).mem, s.nextFree + |first|, |second|)
  {
    StoreAdjacent(s.mem, s.nextFree, first, second);
    AppendGrows(s, first + second);
  }

  /** The slow path of a legal free always finds its chunk. */
  lemma FreeTargetExists(c: Config, i: nat, flag: bool)
    requires Inv(c) && Enabled(c, Free(i, flag))
    ensures FindChunk(c.s.chunk, c.objs[i].addr).Chunk?
  {
    var o := c.objs[i];
    assert ObjOk(c.s, o);
    StartPastHeader(o.home.addr, c.s.alignmentMask);
    FindChunkIsHome(o.home, c.s.chunk, o.addr, c.s.alignmentMask);
  }

  class ObjectStack {
    var chunk: Chunk
    var objectBase: nat
    var nextFree: nat
    var chunkLimit: nat
    var temp: int
    var alignmentMask: nat
    var maybeEmptyObject: bool
    var mem: Mem
    ghost var objs: seq<Obj>

    ghost function S(): State
      reads this
    {
      State(chunk, objectBase, nextFree, chunkLimit, alignmentMask, maybeEmptyObject, mem)
    }

    /** Every field but `temp`, and the live objects. */
    ghost function View(): Config
      reads this
    {
      Config(S(), objs)
    }

    ghost predicate Valid()
      reads this
    {
      Inv(View())
    }

    /** _obstack_begin (assumed): a first chunk at `addr` holding `fill`, and nothing in it. */
    constructor (addr: nat, fill: seq<byte>, mask: nat, flag: bool)
      requires WordMacros.PowerOfTwo(mask + 1)
      requires Start(addr, mask) <= addr + CONTENTS_OFFSET + |fill|
      ensures Valid() && View() == Begin(addr, fill, mask, flag)
    {
      BeginEstablishesInv(addr, fill, mask, flag);
      chunk := Chunk(addr, addr + CONTENTS_OFFSET + |fill|, NoChunk);
      objectBase, nextFree := Start(addr, mask), Start(addr, mask);
      chunkLimit := addr + CONTENTS_OFFSET + |fill|;
      temp, alignmentMask, maybeEmptyObject := 0, mask, flag;
      mem := Region(addr + CONTENTS_OFFSET, fill);
      objs := [];
    }

    // -------------------------------------------------------------- library functions

    /** memcpy and single stores; every written byte must be owned. */
    method Write(a: nat, data: seq<byte>)
      requires Owns(mem, a, |data|)
      modifies this`mem
      ensures mem == Store(old(mem), a, data)
    {
      mem := Store(mem, a, data);
    }

    /** Copy bytes to `next_free` and advance it past them. */
    method AddBytes(data: seq<byte>)
      requires Owns(mem, nextFree, |data|)
      modifies this`mem, this`nextFree
      ensures S() == Append(old(S()), data)
    {
      Write(nextFree, data);
      nextFree := nextFree + |data|;
    }

    /** _obstack_newchunk, by its contract. */
    method CallNewChunk(n: int, ch: Choice)
      requires Valid() && ChoiceOk(S(), n, ch) && !Fits(S(), n)
      modifies this
      ensures Valid() && View() == Config(EnsureRoom(old(S()), n, ch), old(objs)) && temp == old(temp)
      ensures Fits(S(), n)
    {
      EnsureRoomKeepsInv(View(), n, ch);
      ghost var after := NewChunk(S(), ch);
      var base := Start(ch.addr, alignmentMask);
      var size := nextFree - objectBase;
      var prev := if ch.replace then chunk.prev else chunk;
      mem := Moved(State(chunk, objectBase, nextFree, chunkLimit, alignmentMask, maybeEmptyObject, mem), ch);
      if ch.replace { mem := Release(mem, chunk); }
      chunk := Chunk(ch.addr, ch.addr + CONTENTS_OFFSET + |ch.fill|, prev);
      objectBase, nextFree, chunkLimit := base, base + size, chunk.limit;
      maybeEmptyObject := ch.flag;
      assert S() == after;
    }

    /** The slow path of _obstack_free: walk down `prev`, releasing chunks, to the one with `a`. */
    method CallFree(a: nat, flag: bool)
      requires Valid() && !FastFree(S(), a) && FindChunk(chunk, a).Chunk?
      modifies this
      ensures S() == FreeState(old(S()), a, flag) && objs == old(objs) && temp == old(temp)
    {
      var lp := chunk;
      while !(lp.addr < a <= lp.limit)
        invariant lp.Chunk? && OnChain(lp, chunk) && ChainOk(lp, alignmentMask)
        invariant FindChunk(lp, a) == FindChunk(chunk, a)
        invariant OwnsExactly(mem, lp)
        invariant forall x :: x in mem ==> x in old(mem) && mem[x] == old(mem)[x]
        decreases Depth(lp)
        modifies this`mem
      {
        assert ChainOk(lp.prev, alignmentMask) && Apart(lp.addr, lp.limit, lp.prev);
        ApartFromOwned(lp.addr, lp.limit, lp.prev);
        mem := Release(mem, lp);
        OnChainTransitive(lp.prev, lp, chunk);
        lp := lp.prev;
      }
      OwnedByMember(lp, chunk);
      assert mem == map x | x in old(mem) && Owned(lp, x) :: old(mem)[x];
      chunk, chunkLimit := lp, lp.limit;
      objectBase, nextFree := a, a;
      maybeEmptyObject := flag;
    }

    // -------------------------------------------------------------- the GNU family

    method GnuMakeRoom(length: int, ch: Choice)
      requires Valid() && Enabled(View(), MakeRoom(length, ch))
      modifies this
      ensures Valid() && View() == Step(old(View()), MakeRoom(length, ch))
      ensures temp == old(temp)
    {
      var len := length;
      if chunkLimit - nextFree < len { CallNewChunk(len, ch); }
    }

    method GnuGrow(data: seq<byte>, ch: Choice)
      requires Valid() && Enabled(View(), Grow(data, ch))
      modifies this
      ensures Valid() && View() == Step(old(View()), Grow(data, ch))
      ensures temp == old(temp)
    {
      RoomThenAppend(View(), data, ch);
      ghost var after := Step(View(), Grow(data, ch));
      var len := |data|;
      if nextFree + len > chunkLimit { CallNewChunk(len, ch); }
      AppendGrows(S(), data);
      AddBytes(data);
      assert View() == after;
    }

    method GnuGrow0(data: seq<byte>, ch: Choice)
      requires Valid() && Enabled(View(), Grow0(data, ch))
      modifies this
      ensures Valid() && View() == Step(old(View()), Grow0(data, ch))
      ensures temp == old(temp)
    {
      RoomThenAppend(View(), data + [0], ch);
      ghost var after := Step(View(), Grow0(data, ch));
      var len := |data|;
      if nextFree + len + 1 > chunkLimit { CallNewChunk(len + 1, ch); }
      AppendAdjacent(S(), data, [0]);
      AddBytes(data);
      AddBytes([0]);
      assert View() == after;
    }

    method GnuOneGrow(datum: byte, ch: Choice)
      requires Valid() && Enabled(View(), OneGrow(datum, ch))
      modifies this
      ensures Valid() && View() == Step(old(View()), OneGrow(datum, ch))
      ensures temp == old(temp)
    {
      RoomThenAppend(View(), [datum], ch);
      ghost var after := Step(View(), OneGrow(datum, ch));
      if nextFree + 1 > chunkLimit { CallNewChunk(1, ch); }
      AppendGrows(S(), [datum]);
      AddBytes([datum]);
      assert View() == after;
    }

    method GnuBlank(length: int, ch: Choice)
      requires Valid() && Enabled(View(), Blank(length, ch))
      modifies this
      ensures Valid() && View() == Step(old(View()), Blank(length, ch))
      ensures temp == old(temp)
    {
      ghost var after := Next(View(), Blank(length, ch));
      var len := length;
      if chunkLimit - nextFree < len { CallNewChunk(len, ch); }
      nextFree := nextFree + len;
      assert View() == after;
    }

    method GnuFinish() returns (value: nat)
      requires Valid()
      modifies this
      ensures Valid() && View() == Step(old(View()), Finish)
      ensures value == old(objectBase) && temp == old(temp)
      ensures maybeEmptyObject <==> old(maybeEmptyObject) || old(nextFree) == old(objectBase)
    {
      ghost var after := Next(View(), Finish);
      value := objectBase;
      if nextFree == value { maybeEmptyObject := true; }
      nextFree := AlignUp(nextFree, alignmentMask);
      if nextFree - chunk.addr > chunkLimit - chunk.addr { nextFree := chunkLimit; }
      objectBase := nextFree;
      objs := after.objs;
      assert View() == after;
    }

    /** `obj` is the address of the i-th live object. */
    method GnuFree(obj: nat, ghost i: nat, flag: bool)
      requires Valid() && Enabled(View(), Free(i, flag)) && obj == objs[i].addr
      modifies this
      ensures Valid() && View() == Step(old(View()), Free(i, flag))
      ensures temp == old(temp)
    {
      FreeTargetExists(View(), i, flag);
      ghost var after := Next(View(), Free(i, flag));
      if obj > chunk.addr && obj < chunkLimit {
        objectBase := obj;
        nextFree := obj;
      } else {
        CallFree(obj, flag);
      }
      objs := after.objs;
      assert View() == after;
    }

    method GnuAlloc(length: nat, ch: Choice) returns (value: nat)
      requires Valid() && Runnable(View(), [Blank(length, ch), Finish])
      modifies this
      ensures Valid() && View() == Run(old(View()), [Blank(length, ch), Finish])
      ensures [value] == Values(old(View()), [Blank(length, ch), Finish])
      ensures objs != [] && value == objs[|objs| - 1].addr
    {
      TwoSteps(View(), Blank(length, ch), Finish);
      GnuBlank(length, ch);
      FinishEffect(View());
      value := GnuFinish();
    }

    method GnuCopy(data: seq<byte>, ch: Choice) returns (value: nat)
      requires Valid() && Runnable(View(), [Grow(data, ch), Finish])
      modifies this
      ensures Valid() && View() == Run(old(View()), [Grow(data, ch), Finish])
      ensures [value] == Values(old(View()), [Grow(data, ch), Finish])
      ensures objs != [] && value == objs[|objs| - 1].addr
    {
      TwoSteps(View(), Grow(data, ch), Finish);
      GnuGrow(data, ch);
      FinishEffect(View());
      value := GnuFinish();
    }

    method GnuCopy0(data: seq<byte>, ch: Choice) returns (value: nat)
      requires Valid() && Runnable(View(), [Grow0(data, ch), Finish])
      modifies this
      ensures Valid() && View() == Run(old(View()), [Grow0(data, ch), Finish])
      ensures [value] == Values(old(View()), [Grow0(data, ch), Finish])
      ensures objs != [] && value == objs[|objs| - 1].addr
    {
      TwoSteps(View(), Grow0(data, ch), Finish);
      GnuGrow0(data, ch);
      FinishEffect(View());
      value := GnuFinish();
    }

    // -------------------------------------------------------------- the portable family

    method PortableMakeRoom(length: int, ch: Choice)
      requires Valid() && Enabled(View(), MakeRoom(length, ch))
      modifies this
      ensures Valid() && View() == Step(old(View()), MakeRoom(length, ch))
    {
      temp := length;
      if nextFree + temp > chunkLimit { CallNewChunk(temp, ch); }
    }

    method PortableGrow(data: seq<byte>, ch: Choice)
      requires Valid() && Enabled(View(), Grow(data, ch))
      modifies this
      ensures Valid() && View() == Step(old(View()), Grow(data, ch))
    {
      RoomThenAppend(View(), data, ch);
      ghost var after := Step(View(), Grow(data, ch));
      temp := |data|;
      if nextFree + temp > chunkLimit { CallNewChunk(temp, ch); }
      AppendGrows(S(), data);
      assert temp == |data|;
      AddBytes(data);
      assert View() == after;
    }

    method PortableGrow0(data: seq<byte>, ch: Choice)
      requires Valid() && Enabled(View(), Grow0(data, ch))
      modifies this
      ensures Valid() && View() == Step(old(View()), Grow0(data, ch))
    {
      RoomThenAppend(View(), data + [0], ch);
      ghost var after := Step(View(), Grow0(data, ch));
      temp := |data|;
      if nextFree + temp + 1 > chunkLimit { CallNewChunk(temp + 1, ch); }
      AppendAdjacent(S(), data, [0]);
      assert temp == |data|;
      AddBytes(data);
      AddBytes([0]);
      assert View() == after;
    }

    method PortableOneGrow(datum: byte, ch: Choice)
      requires Valid() && Enabled(View(), OneGrow(datum, ch))
      modifies this
      ensures Valid() && View() == Step(old(View()), OneGrow(datum, ch))
    {
      RoomThenAppend(View(), [datum], ch);
      ghost var after := Step(View(), OneGrow(datum, ch));
      if nextFree + 1 > chunkLimit { CallNewChunk(1, ch); }
      AppendGrows(S(), [datum]);
      AddBytes([datum]);
      assert View() == after;
    }

    method PortableBlank(length: int, ch: Choice)
      requires Valid() && Enabled(View(), Blank(length, ch))
      modifies this
      ensures Valid() && View() == Step(old(View()), Blank(length, ch))
    {
      ghost var after := Next(View(), Blank(length, ch));
      temp := length;
      if chunkLimit - nextFree < temp { CallNewChunk(temp, ch); }
      nextFree := nextFree + temp;
      assert View() == after;
    }

    method PortableFinish() returns (value: nat)
      requires Valid()
      modifies this
      ensures Valid() && View() == Step(old(View()), Finish)
      ensures value == old(objectBase)
      ensures maybeEmptyObject <==> old(maybeEmptyObject) || old(nextFree) == old(objectBase)
    {
      ghost var after := Next(View(), Finish);
      if nextFree == objectBase { maybeEmptyObject := true; }
      temp := objectBase;
      nextFree := AlignUp(nextFree, alignmentMask);
      if nextFree - chunk.addr > chunkLimit - chunk.addr { nextFree := chunkLimit; }
      objectBase := nextFree;
      value := temp;
      objs := after.objs;
      assert View() == after;
    }

    method PortableFree(obj: nat, ghost i: nat, flag: bool)
      requires Valid() && Enabled(View(), Free(i, flag)) && obj == objs[i].addr
      modifies this
      ensures Valid() && View() == Step(old(View()), Free(i, flag))
    {
      FreeTargetExists(View(), i, flag);
      ghost var after := Next(View(), Free(i, flag));
      temp := obj - chunk.addr;
      if temp > 0 && temp < chunkLimit - chunk.addr {
        objectBase := temp + chunk.addr;
        nextFree := objectBase;
      } else {
        CallFree(temp + chunk.addr, flag);
      }
      objs := after.objs;
      assert View() == after;
    }

    method PortableAlloc(length: nat, ch: Choice) returns (value: nat)
      requires Valid() && Runnable(View(), [Blank(length, ch), Finish])
      modifies this
      ensures Valid() && View() == Run(old(View()), [Blank(length, ch), Finish])
      ensures [value] == Values(old(View()), [Blank(length, ch), Finish])
      ensures objs != [] && value == objs[|objs| - 1].addr
    {
      TwoSteps(View(), Blank(length, ch), Finish);
      PortableBlank(length, ch);
      FinishEffect(View());
      value := PortableFinish();
    }

    method PortableCopy(data: seq<byte>, ch: Choice) returns (value: nat)
      requires Valid() && Runnable(View(), [Grow(data, ch), Finish])
      modifies this
      ensures Valid() && View() == Run(old(View()), [Grow(data, ch), Finish])
      ensures [value] == Values(old(View()), [Grow(data, ch), Finish])
      ensures objs != [] && value == objs[|objs| - 1].addr
    {
      TwoSteps(View(), Grow(data, ch), Finish);
      PortableGrow(data, ch);
      FinishEffect(View());
      value := PortableFinish();
    }

    method PortableCopy0(data: seq<byte>, ch: Choice) returns (value: nat)
      requires Valid() && Runnable(View(), [Grow0(data, ch), Finish])
      modifies this
      ensures Valid() && View() == Run(old(View()), [Grow0(data, ch), Finish])
      ensures [value] == Values(old(View()), [Grow0(data, ch), Finish])
      ensures objs != [] && value == objs[|objs| - 1].addr
    {
      TwoSteps(View(), Grow0(data, ch), Finish);
      PortableGrow0(data, ch);
      FinishEffect(View());
      value := PortableFinish();
    }

    // -------------------------------------------------------------- shared by both families

    method FastOneGrow(datum: byte)
      requires Valid() && Enabled(View(), OneGrowFast(datum))
      modifies this
      ensures Valid() && View() == Step(old(View()), OneGrowFast(datum)) && temp == old(temp)
    {
      ghost var after := Next(View(), OneGrowFast(datum));
      AppendGrows(S(), [datum]);
      AddBytes([datum]);
      assert View() == after;
    }

    method FastBlank(n: int)
      requires Valid() && Enabled(View(), BlankFast(n))
      modifies this
      ensures Valid() && View() == Step(old(View()), BlankFast(n)) && temp == old(temp)
    {
      StepKeepsInv(View(), BlankFast(n));
      nextFree := nextFree + n;
    }

    /** The client stores a byte into a finished object. */
    method ClientPoke(a: nat, b: byte, ghost i: nat, ghost k: nat)
      requires Valid() && Enabled(View(), Poke(i, k, b)) && a == objs[i].addr + k
      modifies this
      ensures Valid() && View() == Step(old(View()), Poke(i, k, b)) && temp == old(temp)
    {
      PokeOwned(View(), i, k, b);
      ghost var after := Next(View(), Poke(i, k, b));
      Write(a, [b]);
      objs := after.objs;
      assert View() == after;
    }

    // -------------------------------------------------------------- whole runs

    /** One Gnu macro; `live` are the addresses the client holds, oldest first. */
    method GnuStep(op: Op, live: seq<nat>) returns (held: seq<nat>, values: seq<nat>)
      requires Valid() && Enabled(View(), op) && Tracks(live, objs)
      modifies this
      ensures Valid() && View() == Step(old(View()), op)
      ensures Tracks(held, objs) && values == Value(old(View()), op)
    {
      held, values := live, [];
      match op
      case MakeRoom(n, ch) => GnuMakeRoom(n, ch);
      case Grow(data, ch) => GnuGrow(data, ch);
      case Grow0(data, ch) => GnuGrow0(data, ch);
      case OneGrow(b, ch) => GnuOneGrow(b, ch);
      case Blank(len, ch) => GnuBlank(len, ch);
      case OneGrowFast(b) => FastOneGrow(b);
      case BlankFast(len) => FastBlank(len);
      case Finish =>
        var value := GnuFinish();
        held, values := live + [value], [value];
      case Free(i, flag) =>
        GnuFree(live[i], i, flag);
        held := live[..i];
      case Poke(i, k, b) => ClientPoke(live[i] + k, b, i, k);
    }

    method GnuRun(ops: seq<Op>, live: seq<nat>) returns (held: seq<nat>, values: seq<nat>)
      requires Valid() && Runnable(View(), ops) && Tracks(live, objs)
      modifies this
      ensures Valid() && View() == Run(old(View()), ops)
      ensures Tracks(held, objs) && values == Values(old(View()), ops)
      decreases |ops|
    {
      held, values := live, [];
      if ops != [] {
        var more;
        ghost var next := Next(View(), ops[0]);
        held, values := GnuStep(ops[0], live);
        assert View() == next;
        held, more := GnuRun(ops[1..], held);
        values := values + more;
      }
    }

    /** One Portable macro; `live` are the addresses the client holds, oldest first. */
    method PortableStep(op: Op, live: seq<nat>) returns (held: seq<nat>, values: seq<nat>)
      requires Valid() && Enabled(View(), op) && Tracks(live, objs)
      modifies this
      ensures Valid() && View() == Step(old(View()), op)
      ensures Tracks(held, objs) && values == Value(old(View()), op)
    {
      held, values := live, [];
      match op
      case MakeRoom(n, ch) => PortableMakeRoom(n, ch);
      case Grow(data, ch) => PortableGrow(data, ch);
      case Grow0(data, ch) => PortableGrow0(data, ch);
      case OneGrow(b, ch) => PortableOneGrow(b, ch);
      case Blank(len, ch) => PortableBlank(len, ch);
      case OneGrowFast(b) => FastOneGrow(b);
      case BlankFast(len) => FastBlank(len);
      case Finish =>
        var value := PortableFinish();
        held, values := live + [value], [value];
      case Free(i, flag) =>
        PortableFree(live[i], i, flag);
        held := live[..i];
      case Poke(i, k, b) => ClientPoke(live[i] + k, b, i, k);
    }

    method PortableRun(ops: seq<Op>, live: seq<nat>) returns (held: seq<nat>, values: seq<nat>)
      requires Valid() && Runnable(View(), ops) && Tracks(live, objs)
      modifies this
      ensures Valid() && View() == Run(old(View()), ops)
      ensures Tracks(held, objs) && values == Values(old(View()), ops)
      decreases |ops|
    {
      held, values := live, [];
      if ops != [] {
        var more;
        ghost var next := Next(View(), ops[0]);
        held, values := PortableStep(ops[0], live);
        assert View() == next;
        held, more := PortableRun(ops[1..], held);
        values := values + more;
      }
    }
  }

  /** From equal states, any run through the GNU family and through the portable family ends in
      equal fields, memory and live objects, and returns the same addresses. */
  method FamiliesAgree(gnu: ObjectStack, portable: ObjectStack, ops: seq<Op>, live: seq<nat>)
    returns (gnuValues: seq<nat>, portableValues: seq<nat>)
    requires gnu != portable && gnu.View() == portable.View()
    requires gnu.Valid() && Runnable(gnu.View(), ops) && Tracks(live, gnu.objs)
    modifies gnu, portable
    ensures gnu.View() == portable.View() == Run(old(gnu.View()), ops)
    ensures gnuValues == portableValues == Values(old(gnu.View()), ops)
  {
    var held;
    held, gnuValues := gnu.GnuRun(ops, live);
    held, portableValues := portable.PortableRun(ops, live);
  }
}
