/**
`compile` of regexp.h up to the call of regcomp: aligning the caller's buffer, and collecting
the pattern from the input macros in a buffer that grows by alloca.

Where alloca puts a region is left open: `Frame.Alloca` promises only a fresh region, so
`Accumulate` is verified for every adjacency of old and new room.
*/
module Regexp {
  import opened Bits
  import opened Memory

  const NUL: int := 0
  const NEWLINE: int := 10
  const FIRST_ROOM: nat := 128

  /** The stored `char` of a character value. */
  function ToByte(ch: int): byte { ch % 256 }

  function ToBytes(s: seq<int>): (r: seq<byte>)
    ensures |r| == |s|
    ensures forall i :: 0 <= i < |s| ==> r[i] == ToByte(s[i])
  {
    seq<byte>(|s|, i requires 0 <= i < |s| => ToByte(s[i]))
  }

  predicate Stops(ch: int, eof: int) { ch == eof || ch == NUL || ch == NEWLINE }

  /** The characters `compile` takes as the pattern. */
  function Pattern(s: seq<int>, eof: int): seq<int> {
    if s == [] || Stops(s[0], eof) then [] else [s[0]] + Pattern(s[1..], eof)
  }

  /** What is left to read afterwards: a stopping eof is consumed, a NUL or newline is not. */
  function Unread(s: seq<int>, eof: int): seq<int> {
    if s == [] then []
    else if s[0] == eof then s[1..]
    else if Stops(s[0], eof) then s
    else Unread(s[1..], eof)
  }

  /** The pattern is the longest prefix without a stopping character. */
  lemma {:induction false} PatternIsLongestPrefix(s: seq<int>, eof: int)
    ensures var p := Pattern(s, eof);
      && p <= s
      && (forall i :: 0 <= i < |p| ==> p[i] != eof && p[i] != 0 && p[i] != 10)
      && (|p| < |s| ==> s[|p|] == eof || s[|p|] == 0 || s[|p|] == 10)
      && Unread(s, eof) == (if |p| < |s| && s[|p|] == eof then s[|p| + 1..] else s[|p|..])
    ensures var n, u := |Pattern(s, eof)|, Unread(s, eof);
      n < |s| && s[n] != eof ==> u != [] && (u[0] == 0 || u[0] == 10)
  {
    if s != [] && !Stops(s[0], eof) {
      PatternIsLongestPrefix(s[1..], eof);
    }
  }

  /** The bytes before the first NUL, as regcomp reads them. */
  function CString(s: seq<byte>): seq<byte> {
    if s == [] || s[0] == 0 then [] else [s[0]] + CString(s[1..])
  }

  lemma {:induction false} CStringOfTerminated(s: seq<byte>)
    ensures CString(s + [0]) == s <==> 0 !in s
  {
    if s != [] {
      assert (s + [0])[1..] == s[1..] + [0];
      CStringOfTerminated(s[1..]);
      assert s == [s[0]] + s[1..];
      assert 0 in s <==> s[0] == 0 || 0 in s[1..];
    }
  }

  /** regcomp sees the whole pattern exactly when no character is stored as a NUL byte. */
  lemma CStringIsPattern(p: seq<int>)
    ensures CString(ToBytes(p) + [0]) == ToBytes(p) <==> forall i :: 0 <= i < |p| ==> ToByte(p[i]) != 0
  {
    CStringOfTerminated(ToBytes(p));
    forall i | 0 <= i < |p| ensures ToByte(p[i]) == ToBytes(p)[i] { }
  }

  // ---------------------------------------------------------------- the caller's buffer

  /** expbuf moved to a multiple of `req`. */
  function AlignBuffer(expbuf: nat, req: nat): nat
    requires req > 0
  {
    expbuf + req - (expbuf + req) % req
  }

  /** The result is the least multiple of the requirement strictly above expbuf: an expbuf that
      is already aligned still gives up `req` bytes. */
  lemma AlignBufferExact(expbuf: nat, req: nat)
    requires req > 0
    ensures var a := AlignBuffer(expbuf, req);
      && a % req == 0 && expbuf < a <= expbuf + req
      && (forall z: nat :: z % req == 0 && z > expbuf ==> z >= a)
      && (a == expbuf + req <==> expbuf % req == 0)
  {
    var t := expbuf + req;
    var q := t / req;
    assert t == q * req + t % req;
    var a := AlignBuffer(expbuf, req);
    DivModUnique(a, req, q, 0);
    forall z: nat | z % req == 0 && z > expbuf ensures z >= a {
      assert z == z / req * req;
      NonzeroMultipleIsLarge(q - z / req, req);
      assert (q - z / req) * req == a - z;
    }
    ModIgnoresMultiples(expbuf, 1, req);
  }

  // ---------------------------------------------------------------- input and memory

  /** The pattern stream behind GETC and UNGETC; after its end GETC reports eof. */
  class Stream {
    var rest: seq<int>

    constructor (s: seq<int>)
      ensures rest == s
    {
      rest := s;
    }

    method GetC(eof: int) returns (ch: int)
      modifies this
      ensures ch == if old(rest) == [] then eof else old(rest)[0]
      ensures rest == if old(rest) == [] then [] else old(rest)[1..]
    {
      if rest == [] {
        ch := eof;
      } else {
        ch := rest[0];
        rest := rest[1..];
      }
    }

    method UngetC(ch: int)
      modifies this
      ensures rest == [ch] + old(rest)
    {
      rest := [ch] + rest;
    }
  }

  /** A region alloca may return: not at NULL and overlapping nothing that is owned. */
  predicate Fresh(m: Mem, a: nat, n: nat) {
    a > 0 && forall x :: a <= x < a + n ==> x !in m
  }

  ghost function Above(keys: set<nat>): (top: nat)
    ensures top > 0 && forall k :: k in keys ==> k < top
    decreases |keys|
  {
    if keys == {} then 1
    else
      var k :| k in keys;
      var others := keys - {k};
      var t := Above(others);
      assert forall x :: x in keys ==> x == k || x in others;
      if k < t then t else k + 1
  }

  /** The stack frame that alloca extends. */
  class Frame {
    var mem: Mem
    ghost var requested: nat

    constructor (m: Mem)
      ensures mem == m && requested == 0
    {
      mem := m;
      requested := 0;
    }

    /** Any fresh region with any contents. */
    method Alloca(n: nat) returns (a: nat)
      modifies this
      ensures Fresh(old(mem), a, n)
      ensures forall x :: x in mem <==> x in old(mem) || a <= x < a + n
      ensures forall x :: x in old(mem) ==> mem[x] == old(mem)[x]
      ensures requested == old(requested) + n
    {
      assert Fresh(mem, Above(mem.Keys), n);
      a :| Fresh(mem, a, n);
      var fill := seq<byte>(n, _ => 0);
      mem := mem + Region(a, fill);
      requested := requested + n;
    }

    method Write(a: nat, data: seq<byte>)
      requires Owns(mem, a, |data|)
      modifies this`mem
      ensures mem == Store(old(mem), a, data)
    {
      mem := Store(mem, a, data);
    }

    /** memcpy; source and destination must be owned and must not overlap. */
    method Copy(to: nat, from: nat, n: nat)
      requires Owns(mem, to, n) && Owns(mem, from, n)
      requires n == 0 || to + n <= from || from + n <= to
      modifies this`mem
      ensures mem == Store(old(mem), to, Slice(old(mem), from, n))
    {
      mem := Store(mem, to, Slice(mem, from, n));
    }
  }

  // ---------------------------------------------------------------- the growing buffer

  /** `m` differs from `m0` only in memory that `m0` does not own. */
  ghost predicate Extends(m: Mem, m0: Mem) {
    forall x :: x in m0 ==> x in m && m[x] == m0[x]
  }

  /** A buffer of `size` bytes at `buf`, outside `m0`, whose first bytes are `data`. */
  ghost predicate Holds(m: Mem, m0: Mem, buf: nat, size: nat, data: seq<byte>) {
    && |data| <= size
    && Owns(m, buf, size)
    && (forall x :: buf <= x < buf + size ==> x !in m0)
    && Slice(m, buf, |data|) == data
  }

  lemma FreshIsApart(m: Mem, a: nat, n: nat, b: nat, k: nat)
    requires Fresh(m, a, n) && Owns(m, b, k) && n > 0 && k > 0
    ensures a + n <= b || b + k <= a
  {
    var x := if a <= b then b else a;
    assert b <= x < b + k ==> x in m;
    assert a <= x < a + n ==> x !in m;
  }

  lemma PutKeepsHolding(m: Mem, m0: Mem, buf: nat, size: nat, data: seq<byte>, b: byte)
    requires Extends(m, m0) && Holds(m, m0, buf, size, data) && |data| < size
    ensures Owns(m, buf + |data|, 1)
    ensures Extends(Store(m, buf + |data|, [b]), m0)
    ensures Holds(Store(m, buf + |data|, [b]), m0, buf, size, data + [b])
  {
    var r := Store(m, buf + |data|, [b]);
    SliceConcat(r, buf, |data|, 1);
    SliceBesideStore(m, buf + |data|, [b], buf, |data|);
    SliceOfStore(m, buf + |data|, [b]);
  }

  lemma ToBytesAppend(s: seq<int>, ch: int)
    ensures ToBytes(s + [ch]) == ToBytes(s) + [ToByte(ch)]
  {
  }

  /** One growth of the buffer: it keeps its contents, has room for two more bytes, and at least
      doubles after the first time, whichever way the new region is adjacent. */
  method GrowBuffer(frame: Frame, ghost m0: Mem, buf: nat, size: nat, ghost data: seq<byte>, used: nat)
    returns (newBuf: nat, newSize: nat)
    requires Extends(frame.mem, m0) && Holds(frame.mem, m0, buf, size, data)
    requires |data| == used && (size == 0 ==> buf == 0 && used == 0) && (size > 0 ==> buf > 0 && used + 1 == size)
    requires 0 !in frame.mem
    modifies frame
    ensures Extends(frame.mem, m0) && Holds(frame.mem, m0, newBuf, newSize, data)
    ensures 0 !in frame.mem
    ensures newBuf > 0 && newSize >= used + 2
    ensures frame.requested == old(frame.requested) + (if size == 0 then 128 else 2 * size)
    ensures size == 0 ==> newSize == 128
    ensures size > 0 ==> newSize == 2 * size || newSize == 3 * size
  {
    var more := if size != 0 then 2 * size else FIRST_ROOM;
    var room := frame.Alloca(more);
    if size > 0 { FreshIsApart(old(frame.mem), room, more, buf, size); }
    if room + more == buf {
      newSize := size + more;
      frame.Copy(room, buf, used);
      newBuf := room;
    } else if buf + size == room {
      newSize := size + more;
      newBuf := buf;
    } else {
      newSize := more;
      frame.Copy(room, buf, used);
      newBuf := room;
    }
  }

  // ---------------------------------------------------------------- the accumulation loop

  /** Room requested from alloca for a pattern of `n` characters, at most. */
  function RequestBound(n: nat): nat {
    if n == 0 then 0 else if 4 * n <= 256 then FIRST_ROOM else 4 * n - FIRST_ROOM
  }

  datatype Collected =
    | WildWrite                       // the terminator would be written through a null pointer
    | Collected(buf: nat, len: nat)   // NUL-terminated, `len` bytes before the terminator

  /** What GETC returns on a stream, and what it leaves. */
  function Head(rest: seq<int>, eof: int): int { if rest == [] then eof else rest[0] }

  function Tail(rest: seq<int>): seq<int> { if rest == [] then [] else rest[1..] }

  /** `done` has been taken, `ch` has just been read and `rest` is left. */
  ghost predicate Reading(s0: seq<int>, eof: int, done: seq<int>, ch: int, rest: seq<int>) {
    && Pattern(s0, eof) == done + (if Stops(ch, eof) then [] else [ch] + Pattern(rest, eof))
    && Unread(s0, eof) == (if ch == eof then rest else if Stops(ch, eof) then [ch] + rest else Unread(rest, eof))
  }

  lemma ReadingStarts(s0: seq<int>, eof: int)
    ensures Reading(s0, eof, [], Head(s0, eof), Tail(s0))
  {
    assert s0 != [] ==> s0 == [s0[0]] + s0[1..];
  }

  lemma ReadingContinues(s0: seq<int>, eof: int, done: seq<int>, ch: int, rest: seq<int>)
    requires Reading(s0, eof, done, ch, rest) && !Stops(ch, eof)
    ensures Reading(s0, eof, done + [ch], Head(rest, eof), Tail(rest))
  {
    ReadingStarts(rest, eof);
    assert done + ([ch] + Pattern(rest, eof)) == done + [ch] + Pattern(rest, eof);
  }

  /** The state of the accumulation: the bytes of `done` are in the buffer and leave room for one
      more, and the room requested so far stays within the bound. */
  ghost predicate Buffered(m: Mem, m0: Mem, buf: nat, size: nat, done: seq<int>, asked: int) {
    && Extends(m, m0) && 0 !in m
    && Holds(m, m0, buf, size, ToBytes(done))
    && (if size == 0 then buf == 0 && done == [] && asked == 0
        else buf > 0 && done != [] && |done| + 1 <= size && FIRST_ROOM <= size && asked + FIRST_ROOM <= 2 * size)
    && asked <= RequestBound(|done|)
  }

  /** The buffer has room for one more character and a NUL. */
  ghost predicate Ready(m: Mem, m0: Mem, buf: nat, size: nat, done: seq<int>, asked: int) {
    && Extends(m, m0) && 0 !in m
    && Holds(m, m0, buf, size, ToBytes(done))
    && buf > 0 && |done| + 2 <= size && FIRST_ROOM <= size && asked + FIRST_ROOM <= 2 * size
    && asked <= RequestBound(|done| + 1)
  }

  lemma StoredIsBuffered(m: Mem, m0: Mem, buf: nat, size: nat, done: seq<int>, ch: int, asked: int)
    requires Ready(m, m0, buf, size, done, asked)
    ensures Owns(m, buf + |done|, 1)
    ensures Buffered(Store(m, buf + |done|, [ToByte(ch)]), m0, buf, size, done + [ch], asked)
  {
    PutKeepsHolding(m, m0, buf, size, ToBytes(done), ToByte(ch));
    ToBytesAppend(done, ch);
  }

  /** At `buf`, in memory that was not owned before, lie the pattern's bytes and a NUL. */
  ghost predicate Terminated(m: Mem, m0: Mem, buf: nat, pattern: seq<int>) {
    && Owns(m, buf, |pattern| + 1)
    && (forall x :: buf <= x < buf + |pattern| + 1 ==> x !in m0)
    && Slice(m, buf, |pattern| + 1) == ToBytes(pattern) + [0]
  }

  lemma BufferedInitially(m: Mem)
    requires 0 !in m
    ensures Buffered(m, m, 0, 0, [], 0)
  {
  }

  lemma ReadingEnds(s0: seq<int>, eof: int, done: seq<int>, ch: int, rest: seq<int>)
    requires Reading(s0, eof, done, ch, rest) && Stops(ch, eof)
    ensures Pattern(s0, eof) == done
    ensures Unread(s0, eof) == if ch == eof then rest else [ch] + rest
  {
  }

  /** The buffer byte by byte: every character modulo 256, so itself if it is in 0..255, then NUL. */
  lemma TerminatedBytes(m: Mem, m0: Mem, buf: nat, pattern: seq<int>)
    requires Terminated(m, m0, buf, pattern)
    ensures forall x :: buf <= x <= buf + |pattern| ==> x in m && x !in m0
    ensures forall i :: 0 <= i < |pattern| ==> m[buf + i] == pattern[i] % 256
    ensures forall i :: 0 <= i < |pattern| && 0 <= pattern[i] <= 255 ==> m[buf + i] == pattern[i]
    ensures m[buf + |pattern|] == 0
  {
    var s := Slice(m, buf, |pattern| + 1);
    forall i | 0 <= i < |pattern| ensures m[buf + i] == pattern[i] % 256 {
      assert s[i] == (ToBytes(pattern) + [0])[i] == ToByte(pattern[i]);
      assert s[i] == Load(m, buf + i);
    }
    assert s[|pattern|] == Load(m, buf + |pattern|);
  }

  /** The loop body: grow if the buffer has no room for this character and a NUL, then store. */
  method StoreChar(frame: Frame, ghost m0: Mem, buf: nat, size: nat, ghost done: seq<int>, used: nat,
                   ch: int, ghost asked: int)
    returns (newBuf: nat, newSize: nat)
    requires Buffered(frame.mem, m0, buf, size, done, asked) && used == |done|
    modifies frame
    ensures Buffered(frame.mem, m0, newBuf, newSize, done + [ch], asked + frame.requested - old(frame.requested))
    ensures newSize != size ==> newSize >= 2 * size
  {
    newBuf, newSize := buf, size;
    ghost var asked1 := asked;
    if used + 1 >= size {
      newBuf, newSize := GrowBuffer(frame, m0, buf, size, ToBytes(done), used);
      asked1 := asked + (if size == 0 then FIRST_ROOM else 2 * size);
      assert Ready(frame.mem, m0, newBuf, newSize, done, asked1);
    } else {
      assert Ready(frame.mem, m0, newBuf, newSize, done, asked1);
    }
    StoredIsBuffered(frame.mem, m0, newBuf, newSize, done, ch, asked1);
    frame.Write(newBuf + used, [ToByte(ch)]);
  }

  /** Line 164 of regexp.h: write the terminator where the pattern ends. */
  method Terminate(frame: Frame, ghost m0: Mem, buf: nat, ghost size: nat, ghost done: seq<int>, used: nat,
                   ghost asked: int)
    returns (r: Collected)
    requires Buffered(frame.mem, m0, buf, size, done, asked) && used == |done|
    modifies frame`mem
    ensures Extends(frame.mem, m0)
    ensures r.WildWrite? <==> done == []
    ensures r.Collected? ==> r.len == |done| && Terminated(frame.mem, m0, r.buf, done)
    ensures r.Collected? ==>
      && (forall x :: r.buf <= x <= r.buf + r.len ==> x in frame.mem && x !in m0)
      && (forall i :: 0 <= i < r.len ==> frame.mem[r.buf + i] == done[i] % 256)
      && frame.mem[r.buf + r.len] == 0
    ensures asked <= RequestBound(|done|)
  {
    if buf + used !in frame.mem {
      r := WildWrite;
    } else {
      PutKeepsHolding(frame.mem, m0, buf, size, ToBytes(done), 0);
      frame.Write(buf + used, [0]);
      TerminatedBytes(frame.mem, m0, buf, done);
      r := Collected(buf, used);
    }
  }

  /** Lines 134-164 of regexp.h: read the pattern into a growing buffer and terminate it.  For every choice
      alloca makes the buffer holds exactly the pattern and a NUL, nothing the frame owned
      before is written, and the requested room is linear in the pattern.  The terminator goes
      through a null pointer exactly when the pattern is empty. */
  method Accumulate(frame: Frame, stream: Stream, eof: int) returns (r: Collected)
    requires 0 !in frame.mem
    modifies frame, stream
    ensures stream.rest == Unread(old(stream.rest), eof)
    ensures forall x :: x in old(frame.mem) ==> x in frame.mem && frame.mem[x] == old(frame.mem)[x]
    ensures r.WildWrite? <==> Pattern(old(stream.rest), eof) == []
    ensures r.Collected? ==>
      && r.len == |Pattern(old(stream.rest), eof)|
      && Terminated(frame.mem, old(frame.mem), r.buf, Pattern(old(stream.rest), eof))
    ensures r.Collected? ==>
      && (forall x :: r.buf <= x <= r.buf + r.len ==> x in frame.mem && x !in old(frame.mem))
      && (forall i :: 0 <= i < r.len ==> frame.mem[r.buf + i] == Pattern(old(stream.rest), eof)[i] % 256)
      && frame.mem[r.buf + r.len] == 0
    ensures var n, asked := |Pattern(old(stream.rest), eof)|, frame.requested - old(frame.requested);
      asked <= if n == 0 then 0 else if n <= 64 then 128 else 4 * n - 128
  {
    ghost var m0, s0, asked0 := frame.mem, stream.rest, frame.requested;
    ghost var done: seq<int> := [];
    var input, inputSize, current := 0, 0, 0;
    ReadingStarts(s0, eof);
    BufferedInitially(m0);
    var ch := stream.GetC(eof);
    while ch != eof
      invariant Reading(s0, eof, done, ch, stream.rest) && |done| == current
      invariant Buffered(frame.mem, m0, input, inputSize, done, frame.requested - asked0)
      decreases |stream.rest| + (if ch == eof then 0 else 1)
    {
      if ch == NUL || ch == NEWLINE {
        ReadingEnds(s0, eof, done, ch, stream.rest);
        stream.UngetC(ch);
        assert stream.rest == Unread(s0, eof);
        break;
      }
      ReadingContinues(s0, eof, done, ch, stream.rest);
      input, inputSize := StoreChar(frame, m0, input, inputSize, done, current, ch, frame.requested - asked0);
      current := current + 1;
      done := done + [ch];
      ch := stream.GetC(eof);
    }
    if ch == eof { ReadingEnds(s0, eof, done, ch, stream.rest); }
    assert stream.rest == Unread(s0, eof) && done == Pattern(s0, eof);
    r := Terminate(frame, m0, input, inputSize, done, current, frame.requested - asked0);
  }

  /** How `compile` reaches regcomp. */
  datatype Prepared =
    | Overflow    // ERROR (50): no room for a regex_t in the caller's buffer
    | NullWrite
    | Prepared(exprPtr: nat, buffer: nat, capacity: nat, pattern: nat)

  /** `compile` up to the call of regcomp.  The regex_t and the space for the compiled pattern
      fill the caller's buffer from the aligned start to endbuf; an overflow reads no input. */
  method Compile(frame: Frame, stream: Stream, expbuf: nat, endbuf: nat, eof: int, req: nat, regexSize: nat)
    returns (r: Prepared)
    requires req > 0 && 0 !in frame.mem
    modifies frame, stream
    ensures r.Overflow? <==> endbuf < AlignBuffer(expbuf, req) + regexSize
    ensures r.Overflow? ==> stream.rest == old(stream.rest) && frame.mem == old(frame.mem)
    ensures !r.Overflow? ==>
      && stream.rest == Unread(old(stream.rest), eof)
      && (r.NullWrite? <==> Pattern(old(stream.rest), eof) == [])
    ensures r.Prepared? ==>
      && r.exprPtr % req == 0 && expbuf < r.exprPtr
      && r.exprPtr + regexSize == r.buffer && r.buffer + r.capacity == endbuf
      && Terminated(frame.mem, old(frame.mem), r.pattern, Pattern(old(stream.rest), eof))
    ensures r.Prepared? ==> var p := Pattern(old(stream.rest), eof);
      && (forall x :: r.pattern <= x <= r.pattern + |p| ==> x in frame.mem && x !in old(frame.mem))
      && (forall i :: 0 <= i < |p| ==> frame.mem[r.pattern + i] == p[i] % 256)
      && frame.mem[r.pattern + |p|] == 0
    ensures forall x :: x in old(frame.mem) ==> x in frame.mem && frame.mem[x] == old(frame.mem)[x]
  {
    AlignBufferExact(expbuf, req);
    var aligned := expbuf + req;
    aligned := aligned - aligned % req;
    if endbuf < aligned + regexSize {
      return Overflow;
    }
    var buffer := aligned + regexSize;
    var capacity := endbuf - buffer;
    var c := Accumulate(frame, stream, eof);
    match c
    case WildWrite => r := NullWrite;
    case Collected(buf, _) => r := Prepared(aligned, buffer, capacity, buf);
  }
}
