/** The bodies of queue_test_producer and queue_test_consumer, one slice per call, on the shared
    globals and the real ring queue. */
module QueueTestTasks {
  import opened Words
  import opened RingQueue
  import opened QueueTest
  import opened QueueTestTotals

  const CAPACITY := Q_CAP - 1

  /** In the enqueue loops: at the head of the outer one, or holding a number to push. */
  predicate Enqueuing(t: Test, holding: bool) {
    && Exact(t) && t.sent == t.i <= t.total && !t.done
    && (if holding then t.i < t.total && t.seqNo == t.item == t.sent + 1 else t.seqNo == t.sent)
  }

  /** How the slice that goes on from here ends. */
  function Goal(t: Test, holding: bool): Test
    requires Enqueuing(t, holding)
  {
    if holding then Offer(t, CAPACITY) else Enqueue(t, CAPACITY)
  }

  function WithPush(t: Test): Test {
    t.(queue := t.queue + [t.item], sent := Wrap16(t.i + 1), sentSum := Wrap32(t.sentSum + t.item),
       i := Wrap16(t.i + 1))
  }

  function WithNumber(t: Test): Test {
    var s := Wrap32(t.seqNo + 1); t.(seqNo := s, item := Wrap16(s))
  }

  lemma GoalTakesNumber(t: Test)
    requires Enqueuing(t, false) && t.i < t.total
    ensures Enqueuing(WithNumber(t), true) && Goal(WithNumber(t), true) == Goal(t, false)
  {
    hide Exact;
    EnqueueUnfolds(t, CAPACITY);
    ExactIgnoresNumber(t, WithNumber(t).seqNo, WithNumber(t).item);
  }

  lemma ExactIgnoresNumber(t: Test, seqNo: U32, item: U16)
    requires Exact(t)
    ensures Exact(t.(seqNo := seqNo, item := item))
  {
  }

  lemma GoalPushes(t: Test)
    requires Enqueuing(t, true) && |t.queue| < CAPACITY
    ensures Enqueuing(WithPush(t), false) && Goal(WithPush(t), false) == Goal(t, true)
    ensures WithPush(t).sent == t.sent + 1 <= Goal(t, true).sent
    ensures WithPush(t).i == t.i + 1 && WithPush(t).total == t.total
  {
    hide Exact;
    OfferKeepsExact(t);
    OfferUnfolds(t, CAPACITY);
    EnqueueSends(WithPush(t), CAPACITY);
  }

  lemma GoalBlocks(t: Test)
    requires Enqueuing(t, true) && |t.queue| >= CAPACITY
    ensures Goal(t, true) == t.(producer := Blocked)
  {
    OfferUnfolds(t, CAPACITY);
  }

  lemma GoalEnds(t: Test)
    requires Enqueuing(t, false) && t.i >= t.total
    ensures Goal(t, false) == Drain(t.(done := true)) && Goal(t, false).sent == t.sent
  {
    EnqueueEnds(t, CAPACITY);
  }

  /** The push that raises the alarm is the last one counted. */
  lemma {:induction false} CountsStick(t: Totals, a: nat, b: nat)
    requires CountPushes(t, a).halted && a <= b
    ensures CountPushes(t, b) == CountPushes(t, a)
    decreases b
  {
    if a < b {
      CountsStick(t, a, b - 1);
    }
  }

  class SelfTest {
    const queue: RingQ
    var done: bool
    var ready: bool
    var halted: bool
    var total: U16
    var sent: U16
    var recv: U16
    var runs: U16
    var seqNo: U32
    var sentSum: U32
    var recvSum: U32
    // locals and program points of the tasks
    var i: U16
    var item: U16
    var producer: ProducerPoint
    var consumers: seq<ConsumerPoint>
    ghost var received: seq<U16>
    ghost var runNo: nat

    ghost predicate Valid()
      reads this, queue, queue.buf, queue.guard
    {
      queue.Valid() && runs == Wrap16(runNo)
    }

    ghost function Abs(): Test
      requires queue.Shape()
      reads this, queue, queue.buf
    {
      Test(queue.Contents(), received, done, ready, halted, total, sent, recv, i, item, runNo,
           seqNo, sentSum, recvSum, producer, consumers)
    }

    constructor (totals: Instrumentation, n: nat)
      ensures Valid() && Abs() == Boot(n) && queue.totals == totals
    {
      queue := new RingQ(totals);
      done, ready, halted := false, false, false;
      total, sent, recv, runs, i, item, seqNo, sentSum, recvSum := 0, 0, 0, 0, 0, 0, 0, 0, 0;
      producer := Top;
      consumers := seq(n, _ => Waiting);
      received, runNo := [], 0;
    }

    /** The head of the producer's loop, up to its wait for `ready`. */
    method ResetRun()
      requires Valid()
      modifies this, queue, queue.guard
      ensures Valid() && Abs() == Reset(old(Abs())) && queue.totals.Abs() == old(queue.totals.Abs())
    {
      hide RingQ.Contents, Unrolled, Guarded, Mask, Sum, Wrap16, Wrap32;
      queue.Init();
      ClearGlobals();
      producer := AwaitReady;   // `ready` was just cleared, so the wait loop yields
    }

    method ClearGlobals()
      requires runs == Wrap16(runNo)
      modifies this`runs, this`runNo, this`ready, this`done, this`sent, this`recv, this`seqNo
      modifies this`sentSum, this`recvSum, this`received
      ensures runNo == old(runNo) + 1 && runs == Wrap16(runNo) && !ready && !done && received == []
      ensures sent == recv == 0 && seqNo == sentSum == recvSum == 0
    {
      hide Wrap16;
      NextRun(runNo);
      runs, runNo, ready, done := Wrap16(runs + 1), runNo + 1, false, false;
      sent, recv, seqNo, sentSum, recvSum, received := 0, 0, 0, 0, 0, [];
    }

    static lemma NextRun(n: nat)
      ensures Wrap16(Wrap16(n) + 1) == Wrap16(n + 1)
    {
    }

    method TakeNumber()
      requires Valid()
      modifies this`seqNo, this`item
      ensures Valid() && Abs() == WithNumber(old(Abs()))
    {
      seqNo := Wrap32(seqNo + 1);
      item := Wrap16(seqNo);
    }

    /** One attempt of the inner enqueue loop, with what follows a successful one. */
    method OfferItem() returns (ok: bool)
      requires Valid() && !queue.totals.halted && i < total
      modifies this, queue, queue.buf, queue.guard, queue.totals
      ensures Valid() && ok == (!Full(old(queue.Contents())) && !queue.totals.halted)
      ensures queue.totals.Abs() == TotalsAfterPush(old(queue.totals.Abs()), old(queue.Contents()))
      ensures !queue.totals.halted ==>
                Abs() == if ok then WithPush(old(Abs())) else old(Abs()).(producer := Blocked)
    {
      hide RingQ.Contents, Unrolled, Guarded, Mask, Sum, Wrap16, Wrap32, CountPush;
      ok := queue.Push(item);
      if ok {
        sent := Wrap16(i + 1);
        sentSum := Wrap32(sentSum + item);
        i := Wrap16(i + 1);
      } else {
        producer := Blocked;
      }
    }

    /** The enqueue loops; entered at the inner one when the producer was blocked there.  When the
        totals alarm stops the program on the way, nothing more is said of the test's globals. */
    method EnqueueItems() returns (blocked: bool)
      requires Valid() && !queue.totals.halted && Enqueuing(Abs(), producer == Blocked)
      modifies this, queue, queue.buf, queue.guard, queue.totals
      ensures Valid()
      ensures var t, goal := old(Abs()), Goal(old(Abs()), old(producer) == Blocked);
              && goal.sent >= t.sent
              && queue.totals.Abs() == CountPushes(old(queue.totals.Abs()), goal.sent - t.sent)
              && (!queue.totals.halted ==>
                    if blocked then goal == Abs()
                    else Enqueuing(Abs(), false) && i >= total && goal == Drain(Abs().(done := true)))
    {
      hide RingQ.Contents, Unrolled, Guarded, Mask, Sum, Exact, Wrap16, Wrap32, WithPush, WithNumber, Enqueue, Offer;
      hide Drain, CountPush;
      var holding := producer == Blocked;
      ghost var start, goal, totals, k: nat := Abs(), Goal(Abs(), holding), queue.totals.Abs(), 0;
      while holding || i < total
        invariant Valid() && queue.Shape() && !queue.totals.halted && Enqueuing(Abs(), holding)
        invariant goal == Goal(Abs(), holding) && sent == start.sent + k
        invariant queue.totals.Abs() == CountPushes(totals, k)
        decreases total - i
      {
        if !holding {
          GoalTakesNumber(Abs());
          TakeNumber();
        }
        ghost var t := Abs();
        if |t.queue| < CAPACITY {
          GoalPushes(t);
        } else {
          GoalBlocks(t);
        }
        var ok := OfferItem();
        if !ok {
          if queue.totals.halted {
            CountsStick(totals, k + 1, goal.sent - start.sent);
          }
          return true;
        }
        holding, k := false, k + 1;
      }
      GoalEnds(Abs());
      return false;
    }

    /** From the end of the enqueue loops to the yield that follows. */
    method FinishRun()
      requires Valid()
      modifies this
      ensures Valid() && Abs() == Drain(old(Abs()))
      ensures var wrong := total != 0 && (recv > total || recvSum % 0x1_0000 > sentSum % 0x1_0000);
              && (halted <==> old(halted) || (queue.Contents() == [] && wrong))
              && (queue.Contents() != [] ==> producer == Draining)
              && (queue.Contents() == [] && !wrong ==> producer == Top)
    {
      hide RingQ.Contents;
      var empty := queue.IsEmpty();
      if !empty {
        producer := Draining;
        return;
      }
      if total != 0 {
        if recv > total {
          halted := true;   // fail_halt
          return;
        }
        if recvSum % 0x1_0000 > sentSum % 0x1_0000 {
          halted := true;   // fail_halt
          return;
        }
      }
      producer := Top;
    }

    /** The producer from one yield to the next; stopped by the totals alarm exactly when the
        counting of its pushes is. */
    method ProducerTurn(pick: U16, ghost others: nat)
      requires Valid() && !queue.totals.halted && Invariant(Abs())
      modifies this, queue, queue.buf, queue.guard, queue.totals
      ensures Valid()
      ensures var d := CStep(Counted(old(Abs()), old(queue.totals.Abs()), others), CAPACITY, Task(Producer(pick)));
              queue.totals.Abs() == d.totals && (!queue.totals.halted ==> Abs() == d.test)
    {
      hide RingQ.Contents, Unrolled, Guarded, Mask, Sum, Enqueue, Offer, Drain, Reset, CountPush;
      ghost var t, totals := Abs(), queue.totals.Abs();
      NoneCounted(totals);
      DrainSendsNothing(t);
      if producer == Top {
        ResetRun();
        return;
      }
      if producer == AwaitReady {
        if !ready {
          return;
        }
        total := pick;
        i := 0;
      }
      if producer != Draining {
        var blocked := EnqueueItems();
        if blocked || queue.totals.halted {
          return;
        }
        done := true;
      }
      FinishRun();
    }

    static lemma DrainSendsNothing(t: Test)
      ensures Drain(t).sent == t.sent
    {
    }

    static lemma NoneCounted(t: Totals)
      ensures CountPushes(t, 0) == t
    {
    }

    /** The pop and what follows it, in the consumer's polling loop. */
    method PollQueue(k: nat)
      requires Valid() && !queue.totals.halted && k < |consumers|
      modifies this, queue, queue.guard, queue.totals
      ensures Valid() && queue.totals.Abs() == TotalsAfterPop(old(queue.totals.Abs()), old(queue.Contents()))
      ensures !queue.totals.halted ==> Abs() == Poll(old(Abs()), k)
    {
      hide RingQ.Contents, Unrolled, Guarded, Mask, Sum, Wrap16, Wrap32, CountPop;
      var ok, v := queue.Pop(0);
      if queue.totals.halted {
        return;
      }
      if ok {
        received := received + [v];
        recv := Wrap16(recv + 1);
        recvSum := Wrap32(recvSum + v);
        consumers := consumers[k := Polling];
        return;
      }
      var empty := queue.IsEmpty();
      // Out of the polling loop, the wait loop yields at once: `done` is still set.
      consumers := consumers[k := if done && empty then Waiting else Polling];
    }

    /** A consumer from one yield to the next. */
    method ConsumerTurn(k: nat, ghost others: nat)
      requires Valid() && !queue.totals.halted && Invariant(Abs()) && k < |consumers|
      modifies this, queue, queue.guard, queue.totals
      ensures Valid()
      ensures var d := CStep(Counted(old(Abs()), old(queue.totals.Abs()), others), CAPACITY, Task(Consumer(k)));
              queue.totals.Abs() == d.totals && (!queue.totals.halted ==> Abs() == d.test)
    {
      hide RingQ.Contents, Unrolled, Guarded, Mask, Sum, CountPop;
      NoneCounted(queue.totals.Abs());
      if consumers[k] == Waiting {
        if done {
          return;
        }
        ready := true;
      }
      PollQueue(k);
    }
  }
}
