/**
 * The aggregator of `generate`: it drains the stream of (index, colour)
 * messages the workers produced, counts them, fires a progress tick every
 * width*height/100 messages and writes each colour into the output buffer
 * at its index. The channel is modelled as the finite sequence of messages in
 * arrival order, already complete; the progress bar is the tick count alone.
 */
module Aggregator {
  import opened Unsigned

  /** One worker result: a pixel offset into the buffer and its packed colour. */
  datatype Message = Message(index: nat, colour: bv32)

  datatype Option<T> = None | Some(value: T)

  /** The three ways the drain loop can panic, in the order it checks them. */
  datatype Panic =
    | CounterOverflow   // `pos += 1` on a u32 already at its maximum
    | RemainderByZero   // `pos % 0`, when width*height < 100
    | IndexOutOfBounds  // `out[i]` with i not below the buffer length

  /** How a drain ended: every message handled, or a panic at message number `at` (from 0). */
  datatype Outcome = Finished | Panicked(reason: Panic, at: nat)

  /** The progress step: the u32 quotient width*height / 100, rounded down. */
  function TickStep(width: U32, height: U32): (step: nat)
    requires width * height < U32_LIMIT
    ensures step == 0 <==> width * height < 100
    ensures step * 100 <= width * height < (step + 1) * 100
  {
    width * height / 100
  }

  /**
   * The panic, if any, raised while handling message `m`, where `pos` is the
   * counter's value once it has been incremented for `m`.
   */
  function Fault(m: Message, pos: nat, len: nat, step: nat): Option<Panic>
  {
    if pos >= U32_LIMIT then Some(CounterOverflow)
    else if step == 0 then Some(RemainderByZero)
    else if m.index >= len then Some(IndexOutOfBounds)
    else None
  }

  /** Every message names a slot of a buffer of length `len`. */
  predicate InBounds(msgs: seq<Message>, len: nat)
  {
    forall k :: 0 <= k < |msgs| ==> msgs[k].index < len
  }

  /**
   * The condition under which draining `msgs` into a buffer of length `len`
   * does not panic: at least one pixel per tick, fewer than 2^32 messages,
   * and every index in bounds. (With no messages nothing is ever checked.)
   */
  predicate Safe(msgs: seq<Message>, len: nat, step: nat)
  {
    msgs == [] || (step > 0 && |msgs| < U32_LIMIT && InBounds(msgs, len))
  }

  /** The buffer after writing every message's colour at its index, in order. */
  function Apply(buf: seq<bv32>, msgs: seq<Message>): (r: seq<bv32>)
    requires InBounds(msgs, |buf|)
    ensures |r| == |buf|
    decreases |msgs|
  {
    if msgs == [] then buf
    else
      var last := msgs[|msgs| - 1];
      Apply(buf, msgs[..|msgs| - 1])[last.index := last.colour]
  }

  /** The number of k in 1..n that are multiples of `step`: the ticks after n messages. */
  function Ticks(n: nat, step: nat): nat
    requires n == 0 || step > 0
  {
    if n == 0 then 0 else Ticks(n - 1, step) + (if n % step == 0 then 1 else 0)
  }

  /**
   * The drain loop of `generate`. It returns how the loop ended, the final
   * value of the counter `pos` and the number of progress ticks. On a panic
   * the buffer holds the writes of the messages before the faulty one.
   */
  method Drain(out: array<bv32>, msgs: seq<Message>, width: U32, height: U32)
      returns (outcome: Outcome, pos: nat, ticks: nat)
    requires width * height < U32_LIMIT
    modifies out
    ensures outcome == Finished <==> Safe(msgs, out.Length, TickStep(width, height))
    ensures outcome == Finished ==>
      && pos == |msgs|
      && ticks == Ticks(|msgs|, TickStep(width, height))
      && out[..] == Apply(old(out[..]), msgs)
    ensures outcome.Panicked? ==>
      var step, at := TickStep(width, height), outcome.at;
      && at < |msgs|
      && (forall k :: 0 <= k < at ==> Fault(msgs[k], k + 1, out.Length, step) == None)
      && Fault(msgs[at], at + 1, out.Length, step) == Some(outcome.reason)
      && (at == 0 || step > 0)
      && pos == (if outcome.reason == CounterOverflow then at else at + 1)
      && ticks == Ticks(if outcome.reason == IndexOutOfBounds then at + 1 else at, step)
      && InBounds(msgs[..at], out.Length)
      && out[..] == Apply(old(out[..]), msgs[..at])
  {
    var step := width * height / 100;
    pos, ticks := 0, 0;
    var k := 0;
    while k < |msgs|
      invariant 0 <= k <= |msgs| && pos == k
      invariant forall j :: 0 <= j < k ==> Fault(msgs[j], j + 1, out.Length, step) == None
      invariant k == 0 || step > 0
      invariant ticks == Ticks(k, step)
      invariant InBounds(msgs[..k], out.Length)
      invariant out[..] == Apply(old(out[..]), msgs[..k])
    {
      var m := msgs[k];
      if pos + 1 >= U32_LIMIT {
        return Panicked(CounterOverflow, k), pos, ticks;
      }
      pos := pos + 1;
      if step == 0 {
        return Panicked(RemainderByZero, k), pos, ticks;
      }
      if pos % step == 0 {
        ticks := ticks + 1;
      }
      if m.index >= out.Length {
        return Panicked(IndexOutOfBounds, k), pos, ticks;
      }
      out[m.index] := m.colour;
      assert msgs[..k + 1][..k] == msgs[..k];
      k := k + 1;
    }
    assert msgs[..k] == msgs;
    outcome := Finished;
  }

  /** Safe says exactly that no message of the stream faults. */
  lemma SafeIffNoFault(msgs: seq<Message>, len: nat, step: nat)
    ensures Safe(msgs, len, step) <==>
      forall k :: 0 <= k < |msgs| ==> Fault(msgs[k], k + 1, len, step) == None
  {
    if msgs != [] && forall k :: 0 <= k < |msgs| ==> Fault(msgs[k], k + 1, len, step) == None {
      assert Fault(msgs[0], 1, len, step) == None;
      assert Fault(msgs[|msgs| - 1], |msgs|, len, step) == None;
    }
  }

  /** A slot that no message names keeps its prior value. */
  lemma {:induction false} ApplyUnnamed(buf: seq<bv32>, msgs: seq<Message>, j: nat)
    requires InBounds(msgs, |buf|) && j < |buf|
    requires forall k :: 0 <= k < |msgs| ==> msgs[k].index != j
    ensures Apply(buf, msgs)[j] == buf[j]
  {
    if msgs != [] {
      ApplyUnnamed(buf, msgs[..|msgs| - 1], j);
    }
  }

  /** A slot named by message k, and by no later message, holds k's colour. */
  lemma {:induction false} ApplyLastWrite(buf: seq<bv32>, msgs: seq<Message>, k: nat)
    requires InBounds(msgs, |buf|) && k < |msgs|
    requires forall k' :: k < k' < |msgs| ==> msgs[k'].index != msgs[k].index
    ensures Apply(buf, msgs)[msgs[k].index] == msgs[k].colour
  {
    if k < |msgs| - 1 {
      ApplyLastWrite(buf, msgs[..|msgs| - 1], k);
    }
  }

  /** No two messages name the same slot. */
  predicate DistinctIndices(msgs: seq<Message>)
  {
    forall p, q :: 0 <= p < q < |msgs| ==> msgs[p].index != msgs[q].index
  }

  /** With distinct indices, every message's colour ends up in its slot. */
  lemma ApplyDistinctAt(buf: seq<bv32>, msgs: seq<Message>, m: Message)
    requires InBounds(msgs, |buf|) && DistinctIndices(msgs) && m in msgs
    ensures m.index < |buf| && Apply(buf, msgs)[m.index] == m.colour
  {
    var k :| 0 <= k < |msgs| && msgs[k] == m;
    ApplyLastWrite(buf, msgs, k);
  }

  /** A value occurring twice in a sequence occurs at least twice in its multiset. */
  lemma TwiceInMultiset<T>(s: seq<T>, p: nat, q: nat)
    requires p < q < |s| && s[p] == s[q]
    ensures multiset(s)[s[p]] >= 2
  {
    assert s == s[..q] + s[q..];
    assert s[p] in s[..q];
    assert s[q] in s[q..];
    assert multiset(s) == multiset(s[..q]) + multiset(s[q..]);
  }

  /** A value with multiplicity two or more sits at two different positions. */
  lemma TwoPositions<T>(s: seq<T>, x: T)
    requires multiset(s)[x] >= 2
    ensures exists p, q :: 0 <= p < q < |s| && s[p] == x && s[q] == x
  {
    assert x in s;
    var p :| 0 <= p < |s| && s[p] == x;
    assert s == s[..p] + [x] + s[p + 1..];
    assert multiset(s) == multiset(s[..p]) + multiset{x} + multiset(s[p + 1..]);
    assert x in s[..p] + s[p + 1..];
    if x in s[..p] {
      var q :| 0 <= q < p && s[..p][q] == x;
      assert s[q] == x;
    } else {
      var q :| 0 <= q < |s| - p - 1 && s[p + 1..][q] == x;
      assert s[p + 1 + q] == x;
    }
  }

  /** Reordering a stream keeps its indices distinct and in bounds. */
  lemma DistinctIndicesPermutation(msgs: seq<Message>, msgs': seq<Message>, len: nat)
    requires DistinctIndices(msgs) && InBounds(msgs, len)
    requires multiset(msgs) == multiset(msgs')
    ensures DistinctIndices(msgs') && InBounds(msgs', len)
  {
    forall k | 0 <= k < |msgs'|
      ensures msgs'[k].index < len
    {
      assert msgs'[k] in multiset(msgs');
    }
    forall p, q | 0 <= p < q < |msgs'|
      ensures msgs'[p].index != msgs'[q].index
    {
      if msgs'[p].index == msgs'[q].index {
        assert msgs'[p] in multiset(msgs') && msgs'[q] in multiset(msgs');
        if msgs'[p] == msgs'[q] {
          TwiceInMultiset(msgs', p, q);
          TwoPositions(msgs, msgs'[p]);
        }
      }
    }
  }

  /**
   * Arrival order does not matter when the indices are distinct: draining any
   * reordering of the stream gives the same buffer.
   */
  lemma ApplyPermutation(buf: seq<bv32>, msgs: seq<Message>, msgs': seq<Message>)
    requires InBounds(msgs, |buf|) && DistinctIndices(msgs)
    requires multiset(msgs) == multiset(msgs')
    ensures InBounds(msgs', |buf|) && Apply(buf, msgs') == Apply(buf, msgs)
  {
    DistinctIndicesPermutation(msgs, msgs', |buf|);
    forall j | 0 <= j < |buf|
      ensures Apply(buf, msgs')[j] == Apply(buf, msgs)[j]
    {
      if k :| 0 <= k < |msgs| && msgs[k].index == j {
        assert msgs[k] in multiset(msgs');
        ApplyDistinctAt(buf, msgs, msgs[k]);
        ApplyDistinctAt(buf, msgs', msgs[k]);
      } else {
        forall k | 0 <= k < |msgs'|
          ensures msgs'[k].index != j
        {
          assert msgs'[k] in multiset(msgs);
        }
        ApplyUnnamed(buf, msgs, j);
        ApplyUnnamed(buf, msgs', j);
      }
    }
  }

  /**
   * When the stream names every slot, the final buffer does not depend on
   * the buffer's prior contents (the zero placeholders).
   */
  lemma ApplyCovering(buf: seq<bv32>, buf': seq<bv32>, msgs: seq<Message>)
    requires |buf| == |buf'| && InBounds(msgs, |buf|)
    requires forall j :: 0 <= j < |buf| ==> Names(msgs, j)
    ensures Apply(buf, msgs) == Apply(buf', msgs)
  {
    forall j | 0 <= j < |buf|
      ensures Apply(buf, msgs)[j] == Apply(buf', msgs)[j]
    {
      var k := LastNaming(msgs, j);
      ApplyLastWrite(buf, msgs, k);
      ApplyLastWrite(buf', msgs, k);
    }
  }

  /** The set of slots the first n messages name. */
  function NamedSlots(msgs: seq<Message>, n: nat): set<nat>
    requires n <= |msgs|
  {
    if n == 0 then {} else NamedSlots(msgs, n - 1) + {msgs[n - 1].index}
  }

  /** A slot in NamedSlots(msgs, n) is named by one of the first n messages. */
  lemma {:induction false} NamedSlotsNamed(msgs: seq<Message>, n: nat, j: nat) returns (k: nat)
    requires n <= |msgs| && j in NamedSlots(msgs, n)
    ensures k < n && msgs[k].index == j
  {
    if msgs[n - 1].index == j {
      k := n - 1;
    } else {
      k := NamedSlotsNamed(msgs, n - 1, j);
    }
  }

  /** With distinct indices the first n messages name n different slots. */
  lemma {:induction false} NamedSlotsCount(msgs: seq<Message>, n: nat)
    requires n <= |msgs| && DistinctIndices(msgs)
    ensures |NamedSlots(msgs, n)| == n
  {
    if n > 0 {
      NamedSlotsCount(msgs, n - 1);
      if msgs[n - 1].index in NamedSlots(msgs, n - 1) {
        var k := NamedSlotsNamed(msgs, n - 1, msgs[n - 1].index);
        assert false;
      }
    }
  }

  /** The slots 0..len-1 of a buffer. */
  function Slots(len: nat): (slots: set<nat>)
    ensures |slots| == len
    ensures forall j: nat :: j in slots <==> j < len
  {
    if len == 0 then {} else Slots(len - 1) + {len - 1}
  }

  /** A subset is no larger than its superset. */
  lemma {:induction false} SubsetSize<T>(a: set<T>, b: set<T>)
    requires a <= b
    ensures |a| <= |b|
  {
    if a != {} {
      var y :| y in a;
      SubsetSize(a - {y}, b - {y});
    }
  }

  /** A set inside another of the same finite size is that set. */
  lemma SubsetSameSize<T>(a: set<T>, b: set<T>)
    requires a <= b && |a| == |b|
    ensures a == b
  {
    if a != b {
      var x :| x in b && x !in a;
      SubsetSize(a, b - {x});
    }
  }

  /**
   * A complete stream, width*height messages with distinct in-bounds
   * indices, names every slot: each slot is written exactly once, so no
   * zero placeholder survives and the result does not depend on the
   * buffer's prior contents.
   */
  lemma CompleteStream(buf: seq<bv32>, buf': seq<bv32>, msgs: seq<Message>)
    requires |buf| == |buf'| == |msgs| && InBounds(msgs, |buf|) && DistinctIndices(msgs)
    ensures forall j :: 0 <= j < |buf| ==> Names(msgs, j)
    ensures Apply(buf, msgs) == Apply(buf', msgs)
  {
    NamedSlotsCount(msgs, |msgs|);
    forall j | j in NamedSlots(msgs, |msgs|)
      ensures j in Slots(|buf|)
    {
      var k := NamedSlotsNamed(msgs, |msgs|, j);
    }
    SubsetSameSize(NamedSlots(msgs, |msgs|), Slots(|buf|));
    forall j | 0 <= j < |buf|
      ensures Names(msgs, j)
    {
      assert j in Slots(|buf|);
      var k := NamedSlotsNamed(msgs, |msgs|, j);
    }
    ApplyCovering(buf, buf', msgs);
  }

  /** Some message of the stream names slot j. */
  predicate Names(msgs: seq<Message>, j: nat)
  {
    exists k :: 0 <= k < |msgs| && msgs[k].index == j
  }

  /** The position of the last message naming slot j, when one does. */
  lemma LastNaming(msgs: seq<Message>, j: nat) returns (k: nat)
    requires Names(msgs, j)
    ensures k < |msgs| && msgs[k].index == j
    ensures forall k' :: k < k' < |msgs| ==> msgs[k'].index != j
  {
    k := |msgs| - 1;
    while msgs[k].index != j
      invariant 0 <= k < |msgs|
      invariant exists i :: 0 <= i <= k && msgs[i].index == j
      invariant forall k' :: k < k' < |msgs| ==> msgs[k'].index != j
      decreases k
    {
      k := k - 1;
    }
  }

  /** A positive multiple of a positive number is at least that number. */
  lemma {:induction false} MulAtLeast(d: nat, step: nat)
    requires d >= 1 && step > 0
    ensures d * step >= step
  {
    if d > 1 {
      MulAtLeast(d - 1, step);
      assert d * step == (d - 1) * step + step;
    }
  }

  /** Division by a positive divisor is determined by quotient and remainder. */
  lemma DivModUnique(n: int, step: int, q: int, r: int)
    requires step > 0 && 0 <= r < step && n == q * step + r
    ensures n / step == q && n % step == r
  {
    var q', r' := n / step, n % step;
    assert n == q' * step + r' && 0 <= r' < step;
    if q' > q {
      assert (q' - q) * step == q' * step - q * step;
      MulAtLeast(q' - q, step);
    } else if q' < q {
      assert (q - q') * step == q * step - q' * step;
      MulAtLeast(q - q', step);
    }
  }

  /** After n messages the tick count is n / step, the number of multiples of step in 1..n. */
  lemma {:induction false} TicksIsQuotient(n: nat, step: nat)
    requires step > 0
    ensures Ticks(n, step) == n / step
  {
    if n > 0 {
      TicksIsQuotient(n - 1, step);
      var q, r := (n - 1) / step, (n - 1) % step;
      if r == step - 1 {
        DivModUnique(n, step, q + 1, 0);
      } else {
        DivModUnique(n, step, q, r + 1);
      }
    }
  }

  /** Adding a multiple of the divisor adds to the quotient: (a*step + r) / step == a + r / step. */
  lemma QuotientShift(n: int, step: int, a: int, r: int)
    requires step > 0 && 0 <= r && n == a * step + r
    ensures n / step == a + r / step
  {
    var q, s := r / step, r % step;
    assert r == q * step + s && 0 <= s < step;
    assert n == (a + q) * step + s by {
      assert (a + q) * step == a * step + q * step;
    }
    DivModUnique(n, step, a + q, s);
  }

  /** A remainder below the divisor has quotient zero, and only then. */
  lemma QuotientZero(r: int, step: int)
    requires step > 0 && 0 <= r
    ensures r / step == 0 <==> r < step
  {
    if r < step {
      DivModUnique(r, step, 0, r);
    } else if r / step == 0 {
      assert false;
    }
  }

  /**
   * A full run of width*height messages (width*height >= 100) ticks at least
   * 100 times, the progress bar's length, and exactly 100 times precisely
   * when the remainder width*height % 100 is smaller than the step.
   */
  lemma FullRunTicks(width: U32, height: U32)
    requires 100 <= width * height < U32_LIMIT
    ensures var step := TickStep(width, height);
      && Ticks(width * height, step) == 100 + width * height % 100 / step
      && (Ticks(width * height, step) == 100 <==> width * height % 100 < step)
  {
    var n := width * height;
    var step := TickStep(width, height);
    var r := n % 100;
    TicksIsQuotient(n, step);
    assert n == 100 * step + r;
    QuotientShift(n, step, 100, r);
    QuotientZero(r, step);
  }
}
