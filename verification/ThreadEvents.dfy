/** The event sets of thread_db.h: two 32-bit words as a set of event numbers 1 to 64. */
module ThreadEvents {
  import opened Bits

  const TD_EVENTSIZE: nat := 2
  const BT_UISHIFT: nat := 5
  const BT_UIMASK: nat := 31
  const FULL_WORD: nat := 0xffff_ffff

  type word = x: int | 0 <= x < 0x1_0000_0000

  predicate ValidEvent(n: nat) { 1 <= n <= 64 }

  function EventMask(n: nat): nat
    requires ValidEvent(n)
  {
    Shl(1, And(n - 1, BT_UIMASK))
  }

  function EventWord(n: nat): nat
    requires ValidEvent(n)
  {
    Shr(n - 1, BT_UISHIFT)
  }

  /** Word index and bit index of an event, as numbers. */
  lemma EventPlace(n: nat)
    requires ValidEvent(n)
    ensures EventWord(n) == (n - 1) / 32 < TD_EVENTSIZE
    ensures EventMask(n) == Pow2((n - 1) % 32) < 0x1_0000_0000
  {
    Pow2Values();
    AndMaskIsMod(n - 1, 5);
    Pow2Strict((n - 1) % 32, 32);
  }

  /** struct td_thr_events. */
  class EventSet {
    const eventBits: array<word>

    ghost predicate Valid() { eventBits.Length == TD_EVENTSIZE }

    constructor ()
      ensures Valid() && fresh(eventBits)
    {
      eventBits := new word[TD_EVENTSIZE];
    }

    /** The events in the set. */
    ghost function Events(): set<nat>
      requires Valid()
      reads eventBits
    {
      EventsIn(eventBits[..])
    }

    method EmptySet()
      requires Valid()
      modifies eventBits
      ensures Events() == {}
    {
      var i := TD_EVENTSIZE;
      while i > 0
        invariant 0 <= i <= TD_EVENTSIZE
        invariant forall k :: i <= k < TD_EVENTSIZE ==> eventBits[k] == 0
      {
        eventBits[i - 1] := 0;
        i := i - 1;
      }
      EmptyWords(eventBits[..]);
    }

    method FillSet()
      requires Valid()
      modifies eventBits
      ensures forall n: nat :: n in Events() <==> 1 <= n <= 64
    {
      var i := TD_EVENTSIZE;
      while i > 0
        invariant 0 <= i <= TD_EVENTSIZE
        invariant forall k :: i <= k < TD_EVENTSIZE ==> eventBits[k] == FULL_WORD
      {
        eventBits[i - 1] := FULL_WORD;
        i := i - 1;
      }
      FullWords(eventBits[..]);
    }

    method AddSet(n: nat)
      requires Valid() && ValidEvent(n)
      modifies eventBits
      ensures Events() == old(Events()) + {n}
    {
      EventPlace(n);
      AddedEvent(eventBits[..], n);
      eventBits[EventWord(n)] := WordWith(eventBits[EventWord(n)], EventMask(n));
    }

    method DelSet(n: nat)
      requires Valid() && ValidEvent(n)
      modifies eventBits
      ensures Events() == old(Events()) - {n}
    {
      EventPlace(n);
      DeletedEvent(eventBits[..], n);
      eventBits[EventWord(n)] := WordWithout(eventBits[EventWord(n)], EventMask(n));
    }

    method IsMember(n: nat) returns (r: bool)
      requires Valid() && ValidEvent(n)
      ensures r <==> n in Events()
    {
      EventPlace(n);
      r := And(EventMask(n), eventBits[EventWord(n)]) != 0;
    }

    method IsEmpty() returns (r: bool)
      requires Valid()
      ensures r <==> Events() == {}
    {
      EmptyExactly(eventBits[..]);
      r := eventBits[0] == 0 && eventBits[1] == 0;
    }
  }

  // ---------------------------------------------------------------- the words as a set

  predicate Member(bits: seq<word>, n: nat)
    requires |bits| == TD_EVENTSIZE
  {
    ValidEvent(n) && (EventPlace(n); And(EventMask(n), bits[EventWord(n)]) != 0)
  }

  ghost function EventsIn(bits: seq<word>): (r: set<nat>)
    requires |bits| == TD_EVENTSIZE
    ensures forall n: nat :: n in r <==> Member(bits, n)
  {
    set n: nat | 1 <= n <= 64 && Member(bits, n)
  }

  function WordWith(x: word, mask: nat): (r: word)
    requires mask < 0x1_0000_0000
  {
    Pow2Values();
    OrBounded(32, x, mask);
    Or(x, mask)
  }

  function WordWithout(x: word, mask: nat): (r: word)
    requires mask < 0x1_0000_0000
  {
    Pow2Values();
    AndBounded(x, Not(32, mask));
    And(x, Not(32, mask))
  }

  lemma MemberIsBit(bits: seq<word>, n: nat)
    requires |bits| == TD_EVENTSIZE && ValidEvent(n)
    ensures Member(bits, n) <==> Bit(bits[(n - 1) / 32], (n - 1) % 32)
  {
    EventPlace(n);
    var x, k := bits[(n - 1) / 32], (n - 1) % 32;
    AndPow2IsBit(x, k);
    AndSymmetric(Pow2(k), x);
  }

  /** Event n is bit (n - 1) % 32 of word (n - 1) / 32, for n from 1 to 64. */
  lemma EventsExact(bits: seq<word>, n: nat)
    requires |bits| == TD_EVENTSIZE
    ensures n in EventsIn(bits) <==> 1 <= n <= 64 && bits[(n - 1) / 32] / Pow2((n - 1) % 32) % 2 == 1
  {
    if ValidEvent(n) {
      MemberIsBit(bits, n);
      BitIsQuotientParity(bits[(n - 1) / 32], (n - 1) % 32);
    }
  }

  lemma BitsOfChangedWord(x: word, k: nat, j: nat)
    requires k < 32 && j < 32 && Pow2(k) < 0x1_0000_0000
    ensures Bit(WordWith(x, Pow2(k)), j) <==> j == k || Bit(x, j)
    ensures Bit(WordWithout(x, Pow2(k)), j) <==> j != k && Bit(x, j)
  {
    Pow2Values();
    BitOfOr(x, Pow2(k), j);
    BitOfPow2(k, j);
    BitOfAnd(x, Not(32, Pow2(k)), j);
    BitOfNot(32, Pow2(k), j);
  }

  lemma AddedEvent(bits: seq<word>, n: nat)
    requires |bits| == TD_EVENTSIZE && ValidEvent(n) && EventWord(n) < TD_EVENTSIZE && EventMask(n) < 0x1_0000_0000
    ensures var w: word := WordWith(bits[EventWord(n)], EventMask(n));
      EventsIn(bits[EventWord(n) := w]) == EventsIn(bits) + {n}
  {
    EventPlace(n);
    var w: word := WordWith(bits[EventWord(n)], EventMask(n));
    var r := bits[EventWord(n) := w];
    forall m: nat | ValidEvent(m) ensures Member(r, m) <==> m == n || Member(bits, m) {
      MemberIsBit(r, m);
      MemberIsBit(bits, m);
      if (m - 1) / 32 == (n - 1) / 32 { BitsOfChangedWord(bits[EventWord(n)], (n - 1) % 32, (m - 1) % 32); }
    }
  }

  lemma DeletedEvent(bits: seq<word>, n: nat)
    requires |bits| == TD_EVENTSIZE && ValidEvent(n) && EventWord(n) < TD_EVENTSIZE && EventMask(n) < 0x1_0000_0000
    ensures var w: word := WordWithout(bits[EventWord(n)], EventMask(n));
      EventsIn(bits[EventWord(n) := w]) == EventsIn(bits) - {n}
  {
    EventPlace(n);
    var w: word := WordWithout(bits[EventWord(n)], EventMask(n));
    var r := bits[EventWord(n) := w];
    forall m: nat | ValidEvent(m) ensures Member(r, m) <==> m != n && Member(bits, m) {
      MemberIsBit(r, m);
      MemberIsBit(bits, m);
      if (m - 1) / 32 == (n - 1) / 32 { BitsOfChangedWord(bits[EventWord(n)], (n - 1) % 32, (m - 1) % 32); }
    }
  }

  lemma EmptyWords(bits: seq<word>)
    requires |bits| == TD_EVENTSIZE && forall k :: 0 <= k < TD_EVENTSIZE ==> bits[k] == 0
    ensures EventsIn(bits) == {}
  {
    EmptyExactly(bits);
  }

  lemma FullWords(bits: seq<word>)
    requires |bits| == TD_EVENTSIZE && forall k :: 0 <= k < TD_EVENTSIZE ==> bits[k] == FULL_WORD
    ensures forall n: nat :: n in EventsIn(bits) <==> ValidEvent(n)
  {
    Pow2Values();
    forall n: nat | ValidEvent(n) ensures Member(bits, n) {
      MemberIsBit(bits, n);
      FullWordBits(32, (n - 1) % 32);
    }
  }

  /** td_eventisempty is true exactly of the empty set. */
  lemma EmptyExactly(bits: seq<word>)
    requires |bits| == TD_EVENTSIZE
    ensures bits[0] == 0 && bits[1] == 0 <==> EventsIn(bits) == {}
  {
    Pow2Values();
    if bits[0] == 0 && bits[1] == 0 {
      forall n: nat | ValidEvent(n) ensures !Member(bits, n) {
        MemberIsBit(bits, n);
        BitOfZero((n - 1) % 32);
      }
    }
    forall w | 0 <= w < 2 && EventsIn(bits) == {} ensures bits[w] == 0 {
      forall i: nat | i < 32 ensures Bit(bits[w], i) <==> Bit(0, i) {
        var n := 32 * w + i + 1;
        assert (n - 1) / 32 == w && (n - 1) % 32 == i;
        MemberIsBit(bits, n);
        BitOfZero(i);
        assert n !in EventsIn(bits);
      }
      WordsEqualByBits(32, bits[w], 0);
    }
  }
}
