/** The instrumented ring queue (src/ringq.c, the branch without C11 atomics, whose lock
    operations do nothing), and several queues sharing the instrumentation totals. */
module RingQueue {
  import opened Words

  const Q_CAP := 2048
  const GUARD: U16 := 0xA5A5

  /** `x & (Q_CAP - 1)` on a 16-bit word. */
  function Mask(x: int): (r: int)
    ensures 0 <= r < Q_CAP
  {
    Wrap16(x) % Q_CAP
  }

  // ---- The circular layout ----

  predicate Occupied(i: int, head: int, tail: int) {
    if tail <= head then tail <= i < head else tail <= i || i < head
  }

  type Slots = s: seq<U16> | |s| == Q_CAP witness seq(Q_CAP, _ => 0)

  function Unrolled(buf: Slots, head: int, tail: int): (c: seq<U16>)
    requires 0 <= head < Q_CAP && 0 <= tail < Q_CAP
    ensures |c| == Mask(head - tail) < Q_CAP
    ensures c == [] <==> head == tail
  {
    if tail <= head then buf[tail..head] else buf[tail..] + buf[..head]
  }

  /** The guard word marks exactly the occupied slots. */
  predicate Guarded(guard: Slots, head: int, tail: int) {
    forall i | 0 <= i < Q_CAP :: guard[i] == if Occupied(i, head, tail) then GUARD else 0
  }

  lemma MaskSteps(i: int)
    requires 0 <= i < Q_CAP
    ensures Mask(i + 1) == if i + 1 == Q_CAP then 0 else i + 1
    ensures Mask(i - 1) == if i == 0 then Q_CAP - 1 else i - 1
  {
  }

  lemma MaskDistance(head: int, tail: int)
    requires 0 <= head < Q_CAP && 0 <= tail < Q_CAP
    ensures Mask(head - tail) == if tail <= head then head - tail else head - tail + Q_CAP
  {
  }

  lemma PushLayout(buf: Slots, guard: Slots, head: int, tail: int, v: U16)
    requires 0 <= head < Q_CAP && 0 <= tail < Q_CAP && Guarded(guard, head, tail)
    ensures var next := Mask(head + 1);
            && (next == tail <==> |Unrolled(buf, head, tail)| == 2047)
            && (next != tail ==>
                  && Unrolled(buf[head := v], next, tail) == Unrolled(buf, head, tail) + [v]
                  && Guarded(guard[head := GUARD], next, tail)
                  && Mask(next - tail) == Mask(Mask(head - tail) + 1))
  {
    MaskSteps(head);
    MaskDistance(head, tail);
    MaskDistance(Mask(head + 1), tail);
    MaskSteps(Mask(head - tail));
    hide Mask;
  }

  lemma PopLayout(buf: Slots, guard: Slots, head: int, tail: int)
    requires 0 <= head < Q_CAP && 0 <= tail < Q_CAP && Guarded(guard, head, tail) && head != tail
    ensures var next := Mask(tail + 1);
            && Unrolled(buf, head, tail) == [buf[tail]] + Unrolled(buf, head, next)
            && guard[tail] == 0xA5A5
            && Guarded(guard[tail := 0], head, next)
            && Mask(head - next) == Mask(Mask(head - tail) - 1)
  {
    MaskSteps(tail);
    MaskDistance(head, tail);
    MaskDistance(head, Mask(tail + 1));
    MaskSteps(Mask(head - tail));
    PopUnrolls(buf, head, tail);
    hide Mask, Unrolled;
    assert Occupied(tail, head, tail);
  }

  lemma PopUnrolls(buf: Slots, head: int, tail: int)
    requires 0 <= head < Q_CAP && 0 <= tail < Q_CAP && head != tail
    ensures Unrolled(buf, head, tail) == [buf[tail]] + Unrolled(buf, head, Mask(tail + 1))
  {
    MaskSteps(tail);
    hide Mask;
  }

  // ---- What a queue operation means ----

  /** The two shared totals, and whether ringq_debug_fail has been called: it never returns, so
      from then on nothing happens any more. */
  datatype Totals = Totals(pushed: U32, popped: U32, halted: bool)

  predicate Full(contents: seq<U16>) {
    |contents| >= Q_CAP - 1
  }

  function Pushed(contents: seq<U16>, v: U16): seq<U16> {
    if Full(contents) then contents else contents + [v]
  }

  function Popped(contents: seq<U16>): seq<U16> {
    if contents == [] then [] else contents[1..]
  }

  /** One accepted push: the totals are compared before this push is counted. */
  function CountPush(t: Totals): Totals {
    if t.popped > t.pushed then t.(halted := true) else t.(pushed := Wrap32(t.pushed + 1))
  }

  /** One word popped: the totals are compared after it has been counted. */
  function CountPop(t: Totals): Totals {
    var popped := Wrap32(t.popped + 1);
    Totals(t.pushed, popped, t.halted || popped > t.pushed)
  }

  function TotalsAfterPush(t: Totals, contents: seq<U16>): Totals {
    if Full(contents) then t else CountPush(t)
  }

  function TotalsAfterPop(t: Totals, contents: seq<U16>): Totals {
    if contents == [] then t else CountPop(t)
  }

  lemma ChecksumAdds(c: seq<U16>, v: U16)
    ensures Wrap32(Wrap32(Sum(c)) + v) == Wrap32(Sum(c + [v]))
  {
    hide Wrap32, Sum;
    SumSnoc(c, v);
    WrapSum(Sum(c), v);
  }

  lemma ChecksumDrops(v: U16, c: seq<U16>)
    ensures Wrap32(Wrap32(Sum([v] + c)) - v) == Wrap32(Sum(c))
    ensures c == [] ==> Wrap32(Sum(c)) == 0
  {
    hide Wrap32;
    assert ([v] + c)[1..] == c;
    WrapSum(Sum([v] + c), 0 - v);
    Unwrapped(0);
  }

  // ---- The queue as the program has it ----

  /** ringq_total_pushed and ringq_total_popped; `halted` once ringq_debug_fail is entered. */
  class Instrumentation {
    var pushed: U32
    var popped: U32
    var halted: bool

    function Abs(): Totals
      reads this
    {
      Totals(pushed, popped, halted)
    }

    constructor ()
      ensures Abs() == Totals(0, 0, false)
    {
      pushed, popped, halted := 0, 0, false;
    }
  }

  class RingQ {
    const buf: array<U16>
    const guard: array<U16>
    const totals: Instrumentation
    var head: int
    var tail: int
    var debugSum: U32
    var debugLastSeq: U16

    ghost predicate Shape()
      reads this
    {
      && buf.Length == Q_CAP && guard.Length == Q_CAP && buf != guard
      && 0 <= head < Q_CAP && 0 <= tail < Q_CAP
    }

    /** Exactly the occupied slots are guarded, and the checksum is that of the contents. */
    ghost predicate Valid()
      reads this, buf, guard
    {
      Shape() && Guarded(guard[..], head, tail) && debugSum == Wrap32(Sum(Contents()))
    }

    ghost function Contents(): (c: seq<U16>)
      requires Shape()
      reads this, buf
      ensures |c| == Mask(head - tail)
    {
      Unrolled(buf[..], head, tail)
    }

    constructor (totals: Instrumentation)
      ensures Valid() && Contents() == [] && fresh(buf) && fresh(guard) && this.totals == totals
    {
      this.totals := totals;
      buf := new U16[Q_CAP](_ => 0);
      guard := new U16[Q_CAP](_ => 0);
      head, tail, debugSum, debugLastSeq := 0, 0, 0, 0;
    }

    /** Re-initialisation is allowed at any time; what was queued is dropped. */
    method Init()
      requires Shape()
      modifies this, guard
      ensures Valid() && Contents() == [] && debugLastSeq == 0
    {
      head, tail, debugSum, debugLastSeq := 0, 0, 0, 0;
      var i := 0;
      while i < Q_CAP
        invariant 0 <= i <= Q_CAP && Shape() && head == 0 && tail == 0 && debugSum == 0 && debugLastSeq == 0
        invariant forall k | 0 <= k < i :: guard[k] == 0
      {
        guard[i] := 0;
        i := i + 1;
      }
    }

    method Count() returns (n: int)
      requires Shape()
      ensures n == |Contents()|
    {
      return Mask(head - tail);
    }

    method IsEmpty() returns (empty: bool)
      requires Shape()
      ensures empty <==> Contents() == []
    {
      return head == tail;
    }

    method IsFull() returns (full: bool)
      requires Shape()
      ensures full <==> |Contents()| == 2047
    {
      var next := Mask(head + 1);
      return next == tail;
    }

    method SpaceFree() returns (n: int)
      requires Shape()
      ensures n == 2047 - |Contents()|
    {
      var count := Count();
      return Q_CAP - 1 - count;
    }

    /** When the totals alarm is raised the program stops inside the call, with the word stored
        and not yet counted; the contract then describes the memory it stops with. */
    method Push(v: U16) returns (ok: bool)
      requires Valid() && !totals.halted
      modifies this, buf, guard, totals
      ensures Valid()
      ensures ok <==> |old(Contents())| < 2047 && !totals.halted
      ensures Contents() == (if |old(Contents())| < 2047 then old(Contents()) + [v] else old(Contents()))
                         == Pushed(old(Contents()), v)
      ensures totals.Abs() == TotalsAfterPush(old(totals.Abs()), old(Contents()))
      ensures debugLastSeq == if Full(old(Contents())) then old(debugLastSeq) else v
    {
      hide Unrolled, Guarded, Mask, Sum;
      PushLayout(buf[..], guard[..], head, tail, v);
      ghost var was, slots, guards := Contents(), buf[..], guard[..];
      var before := Count();
      var next := Mask(head + 1);
      if next == tail {
        return false;
      }
      buf[head] := v;
      guard[head] := GUARD;
      head := next;
      assert buf[..] == slots[old(head) := v] && guard[..] == guards[old(head) := GUARD];
      var after := Count();
      if after != Mask(before + 1) {
        assert false;   // ringq_debug_fail
      }
      ChecksumAdds(was, v);
      debugSum := Wrap32(debugSum + v);
      debugLastSeq := v;
      if totals.popped > totals.pushed {
        totals.halted := true;   // ringq_debug_fail
        return false;
      }
      totals.pushed := Wrap32(totals.pushed + 1);
      return true;
    }

    /** `out` is what the caller's variable held; it keeps that value when the queue is empty.
        When the totals alarm is raised the program stops inside the call, the word popped. */
    method Pop(out: U16) returns (ok: bool, v: U16)
      requires Valid() && !totals.halted
      modifies this, guard, totals
      ensures Valid()
      ensures ok <==> old(Contents()) != [] && !totals.halted
      ensures v == if old(Contents()) != [] then old(Contents())[0] else out
      ensures Contents() == (if old(Contents()) != [] then old(Contents())[1..] else []) == Popped(old(Contents()))
      ensures totals.Abs() == TotalsAfterPop(old(totals.Abs()), old(Contents()))
      ensures debugLastSeq == old(debugLastSeq)
    {
      hide Unrolled, Guarded, Mask, Sum;
      ghost var was, guards := Contents(), guard[..];
      var before := Count();
      if head == tail {
        return false, out;
      }
      PopLayout(buf[..], guard[..], head, tail);
      v := buf[tail];
      if guard[tail] != GUARD {
        assert false;   // ringq_debug_fail
      }
      guard[tail] := 0;
      tail := Mask(tail + 1);
      assert guard[..] == guards[old(tail) := 0];
      var after := Count();
      if after != Mask(before - 1) {
        assert false;   // ringq_debug_fail
      }
      totals.popped := Wrap32(totals.popped + 1);
      ChecksumDrops(v, Contents());
      debugSum := Wrap32(debugSum - v);
      var left := Count();
      if left == 0 && debugSum != 0 {
        assert false;   // ringq_debug_fail
      }
      if totals.popped > totals.pushed {
        totals.halted := true;   // ringq_debug_fail
        return false, v;
      }
      return true, v;
    }
  }
}
