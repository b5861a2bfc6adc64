/** The queue self-test protocol (src/main.c): one producer and any number of consumers that
    share a ring queue and a few globals, and interleave only where they yield. */
module QueueTest {
  import opened Words

  // Where a task stands at its last yield.  Top is the head of the producer's outer loop.
  datatype ProducerPoint = Top | AwaitReady | Blocked | Draining
  datatype ConsumerPoint = Waiting | Polling

  /** The test globals, the queue contents, and each task's program point and locals.
      `received` lists the words popped since the last reset; `runs` numbers the runs, without
      the 16-bit limit of test_run_count; `halted` means fail_halt in the producer. */
  datatype Test = Test(
    queue: seq<U16>, received: seq<U16>,
    done: bool, ready: bool, halted: bool,
    total: U16, sent: U16, recv: U16, i: U16, item: U16, runs: nat,
    seqNo: U32, sentSum: U32, recvSum: U32,
    producer: ProducerPoint, consumers: seq<ConsumerPoint>)

  // ---- One slice: from one yield to the next ----

  function Reset(t: Test): Test {
    t.(queue := [], received := [], done := false, ready := false, runs := t.runs + 1,
       sent := 0, recv := 0, seqNo := 0, sentSum := 0, recvSum := 0, producer := AwaitReady)
  }

  /** The head of the enqueue loop. */
  function Enqueue(t: Test, cap: nat): Test
    decreases if t.i < t.total then t.total - t.i else 0, 1
  {
    if t.i < t.total then
      var seqNo := Wrap32(t.seqNo + 1);
      Offer(t.(seqNo := seqNo, item := Wrap16(seqNo)), cap)
    else
      Drain(t.(done := true))
  }

  /** Try to push the item at hand; a full queue makes the producer yield. */
  function Offer(t: Test, cap: nat): Test
    requires t.i < t.total
    decreases t.total - t.i, 0
  {
    if |t.queue| >= cap then t.(producer := Blocked)
    else Enqueue(t.(queue := t.queue + [t.item], sent := Wrap16(t.i + 1),
                    sentSum := Wrap32(t.sentSum + t.item), i := t.i + 1), cap)
  }

  lemma EnqueueUnfolds(t: Test, cap: nat)
    requires t.i < t.total
    ensures Enqueue(t, cap)
            == Offer(t.(seqNo := Wrap32(t.seqNo + 1), item := Wrap16(Wrap32(t.seqNo + 1))), cap)
  {
    hide Offer, Wrap32, Wrap16;
  }

  lemma OfferUnfolds(t: Test, cap: nat)
    requires t.i < t.total
    ensures Offer(t, cap)
            == if |t.queue| >= cap then t.(producer := Blocked)
               else Enqueue(t.(queue := t.queue + [t.item], sent := Wrap16(t.i + 1),
                               sentSum := Wrap32(t.sentSum + t.item), i := t.i + 1), cap)
  {
    hide Enqueue, Wrap32, Wrap16;
  }

  lemma EnqueueEnds(t: Test, cap: nat)
    requires t.i >= t.total
    ensures Enqueue(t, cap) == Drain(t.(done := true))
  {
    hide Drain;
  }

  predicate ChecksFail(t: Test) {
    t.total != 0 && (t.recv > t.total || t.recvSum % 0x1_0000 > t.sentSum % 0x1_0000)
  }

  function Drain(t: Test): Test {
    if t.queue != [] then t.(producer := Draining)
    else if ChecksFail(t) then t.(halted := true)
    else t.(producer := Top)
  }

  /** `pick` is what pseudo_random yields, should the slice start a run. */
  function ProducerSlice(t: Test, cap: nat, pick: U16): Test
    requires t.producer == Blocked ==> t.i < t.total
  {
    match t.producer
    case Top => Reset(t)
    case AwaitReady => if t.ready then Enqueue(t.(total := pick, i := 0), cap) else t
    case Blocked => Offer(t, cap)
    case Draining => Drain(t)
  }

  function Poll(t: Test, k: int): Test
    requires 0 <= k < |t.consumers|
  {
    if t.queue != [] then
      t.(queue := t.queue[1..], received := t.received + [t.queue[0]], recv := Wrap16(t.recv + 1),
         recvSum := Wrap32(t.recvSum + t.queue[0]), consumers := t.consumers[k := Polling])
    else t.(consumers := t.consumers[k := if t.done then Waiting else Polling])
  }

  function ConsumerSlice(t: Test, k: int): Test
    requires 0 <= k < |t.consumers|
  {
    if t.consumers[k] == Polling then Poll(t, k)
    else if t.done then t
    else Poll(t.(ready := true), k)
  }

  // ---- Safety, for every interleaving ----

  datatype Turn = Producer(pick: U16) | Consumer(k: nat)

  predicate Sane(t: Test) {
    t.producer == Blocked ==> t.i < t.total
  }

  function Step(t: Test, cap: nat, turn: Turn): Test
    requires Sane(t)
  {
    if t.halted then t
    else
      match turn
      case Producer(pick) => ProducerSlice(t, cap, pick)
      case Consumer(k) => if k < |t.consumers| then ConsumerSlice(t, k) else t
  }

  /** 1, 2, ..., n */
  function Numbers(n: nat): (s: seq<U16>)
    requires n < 0x1_0000
    ensures |s| == n
  {
    if n == 0 then [] else Numbers(n - 1) + [n]
  }

  predicate Exact(t: Test) {
    && !t.halted
    && t.received + t.queue == Numbers(t.sent)
    && t.recv == |t.received|
    && t.sentSum == Sum(t.received + t.queue)
    && t.recvSum == Sum(t.received)
  }

  /** What holds at every yield point. */
  predicate Invariant(t: Test) {
    && Exact(t)
    && (t.producer == AwaitReady ==> t.sent == 0 && t.seqNo == 0 && !t.done)
    && (t.producer == Blocked ==> t.sent == t.i < t.total && t.seqNo == t.item == t.sent + 1 && !t.done)
    && (t.producer == Draining ==> t.sent == t.total && t.done)
    && (t.producer == Top ==> t.queue == [])
  }

  lemma {:induction false} NumbersSum(n: nat)
    requires n < 0x1_0000
    ensures 2 * Sum(Numbers(n)) == n * (n + 1)
    ensures 0 <= Sum(Numbers(n)) < 0x1_0000_0000
  {
    if n > 0 {
      NumbersSum(n - 1);
      SumSnoc(Numbers(n - 1), n);
      assert n * (n + 1) == (n - 1) * n + 2 * n;
    }
    assert n * (n + 1) <= 0xFFFF * 0x1_0000;
  }

  /** The loop is entered with `i` items sent and leaves at a yield point with the invariant. */
  lemma {:induction false} EnqueueKeeps(t: Test, cap: nat)
    requires Exact(t) && t.sent == t.i <= t.total && t.seqNo == t.sent && !t.done
    ensures Invariant(Enqueue(t, cap))
    decreases t.total - t.i, 1
  {
    hide Sum, Numbers, Wrap16, Wrap32, Offer, Enqueue;
    if t.i < t.total {
      EnqueueUnfolds(t, cap);
      Unwrapped(t.seqNo + 1);
      OfferKeeps(t.(seqNo := t.seqNo + 1, item := t.sent + 1), cap);
    } else {
      EnqueueEnds(t, cap);
      DrainKeeps(t.(done := true));
    }
  }

  /** One accepted push keeps counts and sums exact. */
  lemma OfferKeepsExact(t: Test)
    requires Exact(t) && t.sent == t.i < t.total && t.seqNo == t.item == t.sent + 1
    ensures t.sentSum + t.item < 0x1_0000_0000
    ensures Exact(t.(queue := t.queue + [t.item], sent := t.i + 1, sentSum := t.sentSum + t.item, i := t.i + 1))
  {
    hide Sum;
    assert t.received + (t.queue + [t.item]) == (t.received + t.queue) + [t.item] == Numbers(t.sent + 1);
    NumbersSum(t.sent + 1);
    SumSnoc(t.received + t.queue, t.item);
  }

  lemma {:induction false} OfferKeeps(t: Test, cap: nat)
    requires Exact(t) && t.sent == t.i < t.total && t.seqNo == t.item == t.sent + 1 && !t.done
    ensures Invariant(Offer(t, cap))
    decreases t.total - t.i, 0
  {
    hide Sum, Numbers;
    if |t.queue| < cap {
      OfferKeepsExact(t);
      EnqueueKeeps(t.(queue := t.queue + [t.item], sent := t.i + 1, sentSum := t.sentSum + t.item, i := t.i + 1), cap);
    }
  }

  /** With everything sent and the queue empty the final checks pass. */
  lemma DrainKeeps(t: Test)
    requires Exact(t) && t.sent == t.total && t.done
    ensures Invariant(Drain(t))
  {
    assert t.queue == [] ==> t.received + t.queue == t.received;
  }

  /** A consumer that waits leaves a finished run alone; otherwise it answers the producer and takes
      the oldest word, if there is one. */
  lemma WaiterActs(t: Test, k: int)
    requires 0 <= k < |t.consumers| && t.consumers[k] == Waiting
    ensures var u := ConsumerSlice(t, k);
            if t.done then u == t
            else u.ready && u.queue == (if t.queue == [] then [] else t.queue[1..])
                 && u.received == (if t.queue == [] then t.received else t.received + [t.queue[0]])
  {
  }

  lemma PollKeeps(t: Test, k: int)
    requires Invariant(t) && 0 <= k < |t.consumers|
    ensures Invariant(Poll(t, k))
  {
    if t.queue != [] {
      var v := t.queue[0];
      assert t.received + t.queue == (t.received + [v]) + t.queue[1..];
      SumSnoc(t.received, v);
      NumbersSum(t.sent);
      PrefixSum(t.sent, |t.received| + 1);
      assert t.received + [v] == Numbers(t.sent)[..|t.received| + 1];
    }
  }

  /** A prefix of 1..n is 1..m. */
  lemma {:induction false} PrefixSum(n: nat, m: nat)
    requires m <= n < 0x1_0000
    ensures Numbers(n)[..m] == Numbers(m)
    ensures 0 <= Sum(Numbers(m)) < 0x1_0000_0000
  {
    NumbersSum(m);
    if m < n {
      PrefixSum(n - 1, m);
    }
  }

  lemma StepKeeps(t: Test, cap: nat, turn: Turn)
    requires Invariant(t)
    ensures Invariant(Step(t, cap, turn))
  {
    match turn
    case Producer(pick) =>
      match t.producer {
        case Top =>
        case AwaitReady => if t.ready { EnqueueKeeps(t.(total := pick, i := 0), cap); }
        case Blocked => OfferKeeps(t, cap);
        case Draining => DrainKeeps(t);
      }
    case Consumer(k) =>
      if k < |t.consumers| {
        PollKeeps(t, k);
        PollKeeps(t.(ready := true), k);
      }
  }

  /** The state before any task has run. */
  function Boot(n: nat): Test {
    Test([], [], false, false, false, 0, 0, 0, 0, 0, 0, 0, 0, 0, Top, seq(n, _ => Waiting))
  }

  lemma BootInvariant(n: nat)
    ensures Invariant(Boot(n))
  {
  }

  /** What the invariant says of the words, the counts and the sums. */
  lemma InvariantMeans(t: Test)
    requires Invariant(t)
    ensures !t.halted && t.received + t.queue == Numbers(t.sent)
    ensures t.recv + |t.queue| == t.sent && t.recvSum + Sum(t.queue) == t.sentSum
  {
    SumConcat(t.received, t.queue);
    assert |t.received + t.queue| == t.sent;
  }

  // ---- How much a slice sends ----

  /** What a producer's slice leaves alone unless it starts a run; it only ever sends more. */
  predicate Sends(t: Test, u: Test) {
    && u.consumers == t.consumers && u.recv == t.recv && u.received == t.received && u.runs == t.runs
    && u.sent >= t.sent && |u.queue| - |t.queue| == u.sent - t.sent && u.producer != AwaitReady
    && u.total == t.total
  }

  lemma {:induction false} EnqueueSends(t: Test, cap: nat)
    requires Exact(t) && t.sent == t.i <= t.total && t.seqNo == t.sent && !t.done
    ensures Sends(t, Enqueue(t, cap))
    ensures var u := Enqueue(t, cap); if u.producer == Blocked then |u.queue| >= cap else u.sent == u.total
    decreases t.total - t.i, 1
  {
    hide Sum, Numbers, Wrap16, Wrap32, Offer, Enqueue;
    if t.i < t.total {
      EnqueueUnfolds(t, cap);
      Unwrapped(t.seqNo + 1);
      OfferSends(t.(seqNo := t.seqNo + 1, item := t.sent + 1), cap);
    } else {
      EnqueueEnds(t, cap);
      DrainKeeps(t.(done := true));
    }
  }

  lemma {:induction false} OfferSends(t: Test, cap: nat)
    requires Exact(t) && t.sent == t.i < t.total && t.seqNo == t.item == t.sent + 1 && !t.done
    ensures Sends(t, Offer(t, cap))
    ensures var u := Offer(t, cap); if u.producer == Blocked then |u.queue| >= cap else u.sent == u.total
    decreases t.total - t.i, 0
  {
    hide Sum, Numbers;
    if |t.queue| < cap {
      OfferKeepsExact(t);
      EnqueueSends(t.(queue := t.queue + [t.item], sent := t.i + 1, sentSum := t.sentSum + t.item, i := t.i + 1), cap);
    }
  }

  /** A slice of the producer starts a run, or waits, or sends. */
  lemma SliceSends(t: Test, cap: nat, pick: U16)
    requires Invariant(t)
    ensures var u := Step(t, cap, Producer(pick));
            && u.consumers == t.consumers
            && (t.producer == Top ==> u == Reset(t))
            && (t.producer != Top ==>
                  && u.sent >= t.sent && |u.queue| - |t.queue| == u.sent - t.sent
                  && u.runs == t.runs && u.recv == t.recv && u.received == t.received)
  {
    hide Sum, Numbers;
    match t.producer
    case Top =>
    case AwaitReady => if t.ready { EnqueueSends(t.(total := pick, i := 0), cap); }
    case Blocked => OfferSends(t, cap);
    case Draining =>
  }
}
