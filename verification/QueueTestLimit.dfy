/** The self-test at its limit: with other queues idle, the run whose items take the count of
    pushes to 2^32 is stopped by the totals alarm, so the test never runs for ever. */
module QueueTestLimit {
  import opened Words
  import RingQueue
  import opened QueueTest
  import opened QueueTestRounds
  import opened QueueTestTotals

  const LIMIT := 0x1_0000_0000

  // ---- Counting past the limit ----

  lemma CountsToWrap(t: RingQueue.Totals, k: nat)
    requires !t.halted && t.popped <= t.pushed && k > 0 && t.pushed + k == LIMIT
    ensures CountPushes(t, k) == t.(pushed := 0)
  {
    CountsSilently(t, k - 1);
  }

  lemma {:induction false} CountsPastWrap(t: RingQueue.Totals, k: nat)
    requires !t.halted && 0 < t.popped <= t.pushed && t.pushed + k > LIMIT
    ensures CountPushes(t, k).halted
    decreases k
  {
    if t.pushed + (k - 1) == LIMIT {
      CountsToWrap(t, k - 1);
    } else {
      CountsPastWrap(t, k - 1);
    }
  }

  lemma {:induction false} CountsFromZero(t: RingQueue.Totals, k: nat)
    requires !t.halted && t.popped > 0 && t.pushed == 0 && k > 0
    ensures CountPushes(t, k).halted
    decreases k
  {
    if k == 1 {
      assert CountPushes(t, 0) == t;
    } else {
      CountsFromZero(t, k - 1);
    }
  }

  // ---- What holds while the alarm has not been raised ----

  predicate Idle(acts: seq<Act>) {
    forall i | 0 <= i < |acts| :: acts[i].Task?
  }

  /** Run number r started with `start` pushes counted.  Either the limit is still ahead, or it was
      reached with the last push, and at least two words are queued. */
  predicate Ahead(c: Counted, r: nat, start: nat, items: U16) {
    var held := c.totals.popped + |c.test.queue| + c.others;
    && Invariant(c.test) && c.others + 0x1_0000 <= LIMIT
    && (if c.test.producer == Top then
          c.test.runs + 1 == r && c.totals.pushed == start == held
        else
          && c.test.runs == r
          && (c.test.producer == Blocked || c.test.producer == Draining ==> c.test.total == items)
          && (if start + c.test.sent < LIMIT then c.totals.pushed == start + c.test.sent == held
              else start + c.test.sent == LIMIT && c.totals.pushed == 0 && held == LIMIT && |c.test.queue| >= 2))
  }

  /** A blocked producer left a full queue, from which each consumer has popped at most one word. */
  predicate Filled(t: Test, j: nat, cap: nat) {
    t.producer == Blocked ==> |t.queue| + (if j == 0 then |t.consumers| else j - 1) >= cap
  }

  /** A consumer's slice as the producer and the totals see it. */
  lemma ConsumerSees(t: Test, cap: nat, k: nat)
    requires Invariant(t) && k < |t.consumers|
    ensures var u := Step(t, cap, Consumer(k));
            && u.producer == t.producer && u.runs == t.runs && u.total == t.total && u.sent == t.sent
            && |u.consumers| == |t.consumers| && |u.queue| == |t.queue| - Pops(t, cap, Consumer(k))
  {
    hide Sum, Numbers, Wrap16, Wrap32;
    InvariantMeans(t);
  }

  lemma ConsumerAhead(c: Counted, cap: nat, k: nat, r: nat, start: nat, items: U16)
    requires Ahead(c, r, start, items) && !c.totals.halted && k < |c.test.consumers|
    ensures var d := CStep(c, cap, Task(Consumer(k)));
            d.totals.halted || Ahead(d, r, start, items)
  {
    hide Invariant, Step, Pops;
    ConsumerSees(c.test, cap, k);
    StepKeeps(c.test, cap, Consumer(k));
    assert CountPushes(c.totals, 0) == c.totals;
    if c.test.producer == Top {
      NoWordNoPop(c.test, cap, k);
    }
  }

  lemma NoWordNoPop(t: Test, cap: nat, k: nat)
    requires Invariant(t) && k < |t.consumers| && t.producer == Top
    ensures Pops(t, cap, Consumer(k)) == 0
  {
  }

  /** A producer's slice: where it ends and what it has queued. */
  lemma ProducerFills(t: Test, cap: nat, pick: U16)
    requires Invariant(t) && cap >= 2
    ensures var u := Step(t, cap, Producer(pick));
            && (u.producer == Blocked ==> |u.queue| >= cap)
            && (t.producer != Top ==> u.runs == t.runs && u.recv == t.recv)
            && (t.producer == Top ==> u.producer == AwaitReady && u.runs == t.runs + 1)
            && (t.producer != Top && u.producer == Top ==> u.queue == [] && u.sent == u.total)
            && (t.producer == AwaitReady && u.producer != AwaitReady ==> u.total == pick && t.queue == [])
            && (t.producer == AwaitReady && u.producer != AwaitReady && pick >= 2 ==> |u.queue| >= 2)
            && (t.producer != AwaitReady && t.producer != Top ==> u.total == t.total && u.producer != AwaitReady)
            && (t.producer == AwaitReady && u.producer == AwaitReady ==> u == t)
            && |u.consumers| == |t.consumers| && Filled(u, 1, cap)
  {
    hide Sum, Numbers;
    var u := t.(total := pick, i := 0);
    InvariantMeans(t);
    StepKeeps(t, cap, Producer(pick));
    InvariantMeans(Step(t, cap, Producer(pick)));
    SliceSends(t, cap, pick);
    match t.producer
    case Top =>
    case AwaitReady => if t.ready { EnqueueSends(u, cap); EnqueueStops(u, cap); }
    case Blocked => OfferSends(t, cap); OfferStops(t, cap);
    case Draining =>
  }

  /** The totals after a slice that pushes k words on top of q queued ones. */
  lemma PushesAhead(t: RingQueue.Totals, q: nat, others: nat, k: nat)
    requires !t.halted && q + k < 0x1_0000 && others + 0x1_0000 <= LIMIT
    requires t.popped + q + others == t.pushed
    ensures t.pushed + k < LIMIT ==> CountPushes(t, k) == t.(pushed := t.pushed + k)
    ensures t.pushed + k == LIMIT ==> CountPushes(t, k) == t.(pushed := 0)
    ensures t.pushed + k > LIMIT ==> CountPushes(t, k).halted
  {
    if t.pushed + k < LIMIT {
      CountsSilently(t, k);
    } else if t.pushed + k == LIMIT {
      CountsToWrap(t, k);
    } else {
      CountsPastWrap(t, k);
    }
  }

  lemma ProducerCounts(c: Counted, cap: nat, p: U16)
    requires Invariant(c.test) && !c.totals.halted
    ensures var u, k := Step(c.test, cap, Producer(p)), Pushes(c.test, cap, Producer(p));
            && Invariant(u) && k == (if c.test.producer == Top then 0 else u.sent - c.test.sent)
            && CStep(c, cap, Task(Producer(p)))
               == Counted(if CountPushes(c.totals, k).halted then c.test else u, CountPushes(c.totals, k), c.others)
  {
    hide Exact, Step;
    StepKeeps(c.test, cap, Producer(p));
  }

  lemma ProducerAhead(c: Counted, cap: nat, p: U16, r: nat, start: nat, items: U16)
    requires Ahead(c, r, start, items) && !c.totals.halted && Filled(c.test, 0, cap) && 0 < |c.test.consumers| < cap
    requires items >= 2 && start + items >= LIMIT && (c.test.runs == r ==> p == items)
    ensures var d := CStep(c, cap, Task(Producer(p)));
            d.totals.halted || (Ahead(d, r, start, items) && d.test.producer != Top)
  {
    hide Invariant, Step, CStep, Ahead;
    AheadIsValid(c, r, start, items);
    if c.test.producer == Top {
      ResetsAhead(c, cap, p, r, start, items);
    } else if start + c.test.sent < LIMIT {
      SendsAhead(c, cap, p, r, start, items);
    } else {
      StopsAhead(c, cap, p, r, start, items);
    }
  }

  lemma ResetsAhead(c: Counted, cap: nat, p: U16, r: nat, start: nat, items: U16)
    requires Ahead(c, r, start, items) && !c.totals.halted && c.test.producer == Top && cap >= 2
    ensures var d := CStep(c, cap, Task(Producer(p)));
            d.totals.halted || (Ahead(d, r, start, items) && d.test.producer != Top)
  {
    hide Exact, Step, CStep, CountPushes;
    ProducerCounts(c, cap, p);
    SliceSends(c.test, cap, p);
    NoPushes(c.totals);
  }

  lemma SendsAhead(c: Counted, cap: nat, p: U16, r: nat, start: nat, items: U16)
    requires Ahead(c, r, start, items) && !c.totals.halted && Filled(c.test, 0, cap) && 0 < |c.test.consumers| < cap
    requires items >= 2 && start + items >= LIMIT && p == items
    requires c.test.producer != Top && start + c.test.sent < LIMIT
    ensures var d := CStep(c, cap, Task(Producer(p)));
            d.totals.halted || (Ahead(d, r, start, items) && d.test.producer != Top)
  {
    hide Exact, Step, CStep, Pushes, CountPushes;
    ProducerCounts(c, cap, p);
    ProducerFills(c.test, cap, p);
    SliceSends(c.test, cap, p);
    InvariantMeans(c.test);
    InvariantMeans(Step(c.test, cap, Producer(p)));
    PushesAhead(c.totals, |c.test.queue|, c.others, Pushes(c.test, cap, Producer(p)));
  }

  lemma StopsAhead(c: Counted, cap: nat, p: U16, r: nat, start: nat, items: U16)
    requires Ahead(c, r, start, items) && !c.totals.halted && cap >= 2 && c.test.producer != Top
    requires p == items && start + c.test.sent >= LIMIT
    ensures var d := CStep(c, cap, Task(Producer(p)));
            d.totals.halted || (Ahead(d, r, start, items) && d.test.producer != Top)
  {
    hide Exact, Step, CStep, Pushes, CountPushes;
    var k := Pushes(c.test, cap, Producer(p));
    ProducerCounts(c, cap, p);
    ProducerFills(c.test, cap, p);
    SliceSends(c.test, cap, p);
    InvariantMeans(c.test);
    if k > 0 {
      CountsFromZero(c.totals, k);
    } else {
      NoPushes(c.totals);
    }
  }

  lemma NoPushes(t: RingQueue.Totals)
    ensures CountPushes(t, 0) == t
  {
  }

  lemma QuietTop(t: Test)
    requires Invariant(t)
    ensures t.producer == Top ==> t.queue == []
    ensures t.producer == Draining ==> t.sent == t.total
  {
  }

  // ---- Whole schedules ----

  lemma {:induction false} StaysAhead(c: Counted, acts: seq<Act>, j: nat, cap: nat, pick: nat -> U16, r: nat,
                                      start: nat)
    requires Ahead(c, r, start, pick(r)) && !c.totals.halted && pick(r) >= 2 && start + pick(r) >= LIMIT
    requires 0 < |c.test.consumers| < cap && j <= |c.test.consumers| && Filled(c.test, j, cap)
    requires (c.test.producer == Top ==> j == 0) && Idle(acts) && InTurn(c.test, acts, j, cap, pick)
    ensures var d := CExec(c, cap, acts);
            d.totals.halted || (Ahead(d, r, start, pick(r)) && d.test == TestExec(c.test, cap, acts))
    decreases |acts|
  {
    hide Step, Pushes, Pops, CountSlice, Exact, Ahead;
    AheadIsValid(c, r, start, pick(r));
    if acts != [] {
      var d := CStep(c, cap, acts[0]);
      if j == 0 {
        ProducerFills(c.test, cap, pick(c.test.runs));
        ProducerAhead(c, cap, pick(c.test.runs), r, start, pick(r));
      } else {
        ConsumerSees(c.test, cap, j - 1);
        ConsumerAhead(c, cap, j - 1, r, start, pick(r));
      }
      if d.totals.halted {
        HaltedStays(d, cap, acts[1..]);
      } else {
        StaysAhead(d, acts[1..], Following(j, |c.test.consumers| + 1), cap, pick, r, start);
      }
    }
  }

  lemma AheadIsValid(c: Counted, r: nat, start: nat, items: U16)
    requires Ahead(c, r, start, items)
    ensures Invariant(c.test) && (c.test.runs == r || c.test.runs + 1 == r)
    ensures c.test.producer == Top <==> c.test.runs + 1 == r
  {
  }

  lemma {:induction false} HaltedStays(c: Counted, cap: nat, acts: seq<Act>)
    requires Invariant(c.test) && c.totals.halted
    ensures CExec(c, cap, acts) == c
    decreases |acts|
  {
    if acts != [] {
      HaltedStays(c, cap, acts[1..]);
    }
  }

  lemma {:induction false} InTurnPrefix(t: Test, acts: seq<Act>, j: nat, cap: nat, pick: nat -> U16, p: nat)
    requires Invariant(t) && InTurn(t, acts, j, cap, pick) && p <= |acts|
    ensures InTurn(t, acts[..p], j, cap, pick)
    decreases p
  {
    hide TestStep, Invariant;
    if p > 0 {
      InTurnPrefix(TestStep(t, cap, acts[0]), acts[1..],
                   if acts[0].Task? then Following(j, |t.consumers| + 1) else j, cap, pick, p - 1);
      assert acts[..p][1..] == acts[1..][..p - 1];
    }
  }

  /** All pushes and pops counted are those of words queued now, and no alarm has been raised. */
  predicate Settled(c: Counted) {
    Fine(c) && Lost(c) == 0 && c.others + 0x1_0000 <= LIMIT
  }

  lemma StartsAhead(c: Counted, cap: nat, items: U16)
    requires AtStart(c.test) && Settled(c)
    ensures Ahead(c, c.test.runs + 1, c.totals.pushed, items) && !c.totals.halted
    ensures Filled(c.test, 0, cap) && c.test.producer == Top && c.test.queue == []
  {
    QuietTop(c.test);
  }

  /** The run is complete and the program still runs. */
  predicate Ends(c: Counted, r: nat) {
    !c.totals.halted && Complete(c.test) && c.test.runs == r
  }

  /** With other queues idle, fewer consumers than the queue holds words and at least two items in
      the run: when its items bring the count of pushes to 2^32, the run never ends; within as many
      rounds as it would take, the alarm stops the program. */
  lemma RunHalts(c: Counted, acts: seq<Act>, cap: nat, pick: nat -> U16)
    requires AtStart(c.test) && Settled(c) && |c.test.consumers| < cap && pick(c.test.runs + 1) >= 2
    requires c.totals.pushed + pick(c.test.runs + 1) >= LIMIT
    requires Idle(acts) && InTurn(c.test, acts, 0, cap, pick)
    ensures forall p | 0 <= p <= |acts| :: !Ends(CExec(c, cap, acts[..p]), c.test.runs + 1)
    ensures Slices(acts) >= (pick(c.test.runs + 1) + 3) * (|c.test.consumers| + 1) ==> CExec(c, cap, acts).totals.halted
  {
    hide CExec, InTurn, Slices, Complete, Exact, All, Fine, Settled, Ends;
    forall p | 0 <= p <= |acts| ensures !Ends(CExec(c, cap, acts[..p]), c.test.runs + 1) {
      RunDoesNotEnd(c, acts, cap, pick, p);
    }
    if Slices(acts) >= (pick(c.test.runs + 1) + 3) * (|c.test.consumers| + 1) {
      RunIsStopped(c, acts, cap, pick);
    }
  }

  lemma RunDoesNotEnd(c: Counted, acts: seq<Act>, cap: nat, pick: nat -> U16, p: nat)
    requires AtStart(c.test) && Settled(c) && |c.test.consumers| < cap && pick(c.test.runs + 1) >= 2
    requires c.totals.pushed + pick(c.test.runs + 1) >= LIMIT
    requires Idle(acts) && InTurn(c.test, acts, 0, cap, pick) && p <= |acts|
    ensures !Ends(CExec(c, cap, acts[..p]), c.test.runs + 1)
    ensures var d := CExec(c, cap, acts[..p]); d.totals.halted || d.test == TestExec(c.test, cap, acts[..p])
  {
    hide CExec, TestExec, InTurn, Complete, Exact, All, Fine, Ahead, Filled;
    var r := c.test.runs + 1;
    StartsAhead(c, cap, pick(r));
    InTurnPrefix(c.test, acts, 0, cap, pick, p);
    StaysAhead(c, acts[..p], 0, cap, pick, r, c.totals.pushed);
    NotComplete(CExec(c, cap, acts[..p]), r, c.totals.pushed, pick(r));
  }

  lemma RunIsStopped(c: Counted, acts: seq<Act>, cap: nat, pick: nat -> U16)
    requires AtStart(c.test) && Settled(c) && |c.test.consumers| < cap && pick(c.test.runs + 1) >= 2
    requires c.totals.pushed + pick(c.test.runs + 1) >= LIMIT
    requires Idle(acts) && InTurn(c.test, acts, 0, cap, pick)
    requires Slices(acts) >= (pick(c.test.runs + 1) + 3) * (|c.test.consumers| + 1)
    ensures CExec(c, cap, acts).totals.halted
  {
    hide CExec, TestExec, InTurn, Slices, Complete, Exact, All, Fine, Settled;
    var p := TestCompletes(c.test, acts, cap, pick);
    RunDoesNotEnd(c, acts, cap, pick, p);
    assert acts == acts[..p] + acts[p..];
    ExecConcat(c, cap, acts[..p], acts[p..]);
    HaltedStays(CExec(c, cap, acts[..p]), cap, acts[p..]);
  }

  lemma NotComplete(c: Counted, r: nat, start: nat, items: U16)
    requires c.totals.halted || Ahead(c, r, start, items)
    ensures !c.totals.halted ==> !(Complete(c.test) && c.test.runs == r)
  {
  }

  /** So a run completes if and only if its items keep the count of pushes below 2^32. */
  lemma RunCompletesExactly(c: Counted, acts: seq<Act>, cap: nat, pick: nat -> U16)
    requires AtStart(c.test) && Settled(c) && |c.test.consumers| < cap && pick(c.test.runs + 1) >= 2
    requires Idle(acts) && InTurn(c.test, acts, 0, cap, pick)
    requires Slices(acts) >= (pick(c.test.runs + 1) + 3) * (|c.test.consumers| + 1)
    ensures (exists p | 0 <= p <= |acts| :: Ends(CExec(c, cap, acts[..p]), c.test.runs + 1))
            <==> c.totals.pushed + pick(c.test.runs + 1) < LIMIT
    ensures c.totals.pushed + pick(c.test.runs + 1) >= LIMIT ==> CExec(c, cap, acts).totals.halted
  {
    hide CExec, TestExec, InTurn, Complete, Exact, All;
    if c.totals.pushed + pick(c.test.runs + 1) < LIMIT {
      IdlePushesNothing(acts);
      var p := RunCompletes(c, acts, cap, pick);
      assert Ends(CExec(c, cap, acts[..p]), c.test.runs + 1);
    } else {
      RunHalts(c, acts, cap, pick);
    }
  }

  lemma {:induction false} IdlePushesNothing(acts: seq<Act>)
    requires Idle(acts)
    ensures OtherPushes(acts) == 0 && NoDrops(acts)
  {
    if acts != [] {
      IdlePushesNothing(acts[1..]);
    }
  }

  /** And the self-test does not run for ever: with at least two items in every run, any schedule
      that is long enough for m runs stops once they bring the count of pushes to 2^32. */
  lemma {:induction false} SelfTestHalts(c: Counted, acts: seq<Act>, cap: nat, pick: nat -> U16, m: nat)
    requires AtStart(c.test) && Settled(c) && |c.test.consumers| < cap && forall r :: pick(r) >= 2
    requires c.totals.pushed + 2 * m >= LIMIT && Idle(acts) && InTurn(c.test, acts, 0, cap, pick)
    requires Slices(acts) >= RoundsFor(pick, c.test.runs, m) * (|c.test.consumers| + 1)
    ensures CExec(c, cap, acts).totals.halted
    decreases m
  {
    hide CExec, TestExec, InTurn, Exact, All, Slices, OtherPushes, Complete;
    var r, n := c.test.runs, |c.test.consumers| + 1;
    SplitsRounds(pick(r + 1) + 3, RoundsFor(pick, r + 1, m - 1), n);
    if c.totals.pushed + pick(r + 1) >= LIMIT {
      RunHalts(c, acts, cap, pick);
    } else {
      IdlePushesNothing(acts);
      var p := RunCompletes(c, acts, cap, pick);
      var d := CExec(c, cap, acts[..p]);
      CompleteIsStart(d.test);
      IdleOthersKept(c, cap, acts[..p]);
      SelfTestHalts(d, acts[p..], cap, pick, m - 1);
      assert acts == acts[..p] + acts[p..];
      ExecConcat(c, cap, acts[..p], acts[p..]);
    }
  }

  lemma {:induction false} IdleOthersKept(c: Counted, cap: nat, acts: seq<Act>)
    requires Invariant(c.test) && Idle(acts)
    ensures CExec(c, cap, acts).others == c.others
    decreases |acts|
  {
    hide Invariant, Step, CountSlice;
    if acts != [] {
      IdleOthersKept(CStep(c, cap, acts[0]), cap, acts[1..]);
    }
  }

  // ---- Why the consumers must be fewer than the queue holds words ----

  /** One consumer and a queue of one word, both totals one short of the limit. */
  function OneAndOne(): Counted {
    Counted(Boot(1), RingQueue.Totals(LIMIT - 1, LIMIT - 1, false), 0)
  }

  /** The test of OneAndOne after 1, 2, ..., 8 slices of a run of two items. */
  function Point(k: nat): Test
    requires k <= 8
  {
    var t := Boot(1).(producer := AwaitReady, runs := 1);
    var u := t.(ready := true, consumers := [Polling]);
    var v := u.(total := 2, sent := 1, i := 1, seqNo := 2, item := 2, sentSum := 1, producer := Blocked);
    var w := v.(sent := 2, i := 2, sentSum := 3, done := true, producer := Draining);
    if k == 0 then Boot(1)
    else if k == 1 then t
    else if k == 2 then u
    else if k == 3 then v.(queue := [1])
    else if k == 4 then v.(received := [1], recv := 1, recvSum := 1)
    else if k == 5 then w.(queue := [2], received := [1], recv := 1, recvSum := 1)
    else if k == 6 then w.(received := [1, 2], recv := 2, recvSum := 3)
    else if k == 7 then w.(received := [1, 2], recv := 2, recvSum := 3, producer := Top)
    else w.(received := [1, 2], recv := 2, recvSum := 3, producer := Top, consumers := [Waiting])
  }

  function PointTurn(k: nat): Turn {
    if k % 2 == 0 then Producer(2) else Consumer(0)
  }

  lemma PointSteps(k: nat)
    requires k < 8
    ensures Sane(Point(k)) && Step(Point(k), 1, PointTurn(k)) == Point(k + 1)
  {
    if k == 2 {
      FirstPush();
    } else if k == 4 {
      SecondPush();
    } else if k == 3 || k == 5 {
      PointPops(k);
    } else {
      PointMovesOn(k);
    }
  }

  lemma PointMovesOn(k: nat)
    requires k in {0, 1, 6, 7}
    ensures Sane(Point(k)) && Step(Point(k), 1, PointTurn(k)) == Point(k + 1)
  {
    hide Enqueue, Offer, Wrap16, Wrap32;
    assert [Waiting][0 := Polling] == [Polling] && [Polling][0 := Waiting] == [Waiting];
    assert seq(1, _ => Waiting) == [Waiting];
  }

  lemma PointPops(k: nat)
    requires k == 3 || k == 5
    ensures Sane(Point(k)) && Step(Point(k), 1, PointTurn(k)) == Point(k + 1)
  {
    hide Enqueue, Offer, Wrap16, Wrap32;
    Unwrapped(1);
    Unwrapped(2);
    Unwrapped(3);
    assert [Polling][0 := Polling] == [Polling];
    var v: U16 := if k == 3 then 1 else 2;
    assert [v][1..] == [] && [] + [v] == [v] && [1] + [v] == [1, v];
  }

  lemma FirstPush()
    ensures Step(Point(2), 1, Producer(2)) == Point(3)
  {
    hide Enqueue, Offer, Wrap16, Wrap32;
    var t := Point(2).(total := 2, i := 0);
    var u := t.(seqNo := 1, item := 1, queue := [1], sent := 1, sentSum := 1, i := 1);
    Unwrapped(1);
    Unwrapped(2);
    EnqueueUnfolds(t, 1);
    OfferUnfolds(t.(seqNo := 1, item := 1), 1);
    assert t.queue + [1] == [1];
    EnqueueUnfolds(u, 1);
    OfferUnfolds(u.(seqNo := 2, item := 2), 1);
  }

  lemma SecondPush()
    ensures Sane(Point(4)) && Step(Point(4), 1, Producer(2)) == Point(5)
  {
    hide Enqueue, Offer, Wrap16, Wrap32;
    Unwrapped(2);
    Unwrapped(3);
    OfferUnfolds(Point(4), 1);
    assert Point(4).queue + [2] == [2];
    EnqueueEnds(Point(4).(queue := [2], sent := 2, sentSum := 3, i := 2), 1);
  }

  function PointAt(k: nat): Counted
    requires k <= 8
  {
    var pushed := if k < 3 then LIMIT - 1 else if k < 5 then 0 else 1;
    var popped := if k < 4 then LIMIT - 1 else if k < 6 then 0 else 1;
    Counted(Point(k), RingQueue.Totals(pushed, popped, false), 0)
  }

  lemma {:induction false} PointIsReached(k: nat)
    requires k <= 8
    ensures Invariant(Point(k))
  {
    hide Step, Invariant, Point;
    if k == 0 {
      PointZero();
      BootInvariant(1);
    } else {
      PointIsReached(k - 1);
      PointSteps(k - 1);
      StepKeeps(Point(k - 1), 1, PointTurn(k - 1));
    }
  }

  lemma PointZero()
    ensures Point(0) == Boot(1)
  {
  }

  lemma PointCounts(k: nat)
    requires k < 8
    ensures Invariant(Point(k))
    ensures CStep(PointAt(k), 1, Task(PointTurn(k))) == PointAt(k + 1)
  {
    hide Step, Invariant, Point;
    PointIsReached(k);
    PointSteps(k);
    PointMoves(k);
    assert CountPushes(PointAt(k).totals, 0) == PointAt(k).totals;
  }

  /** A word is pushed in slices 2 and 4 and popped in slices 3 and 5. */
  lemma PointMoves(k: nat)
    requires k < 8
    ensures Invariant(Point(k)) && !Point(k).halted
    ensures Pushes(Point(k), 1, PointTurn(k)) == if k == 2 || k == 4 then 1 else 0
    ensures Pops(Point(k), 1, PointTurn(k)) == if k == 3 || k == 5 then 1 else 0
  {
    hide Step, Invariant;
    PointIsReached(k);
    PointSteps(k);
  }

  function PointActs(k: nat): seq<Act>
    requires k <= 8
    decreases 8 - k
  {
    if k == 8 then [] else [Task(PointTurn(k))] + PointActs(k + 1)
  }

  function Two(r: nat): U16 {
    2
  }

  lemma {:induction false} PointRuns(k: nat)
    requires k <= 8
    ensures Invariant(Point(k)) && Idle(PointActs(k)) && InTurn(Point(k), PointActs(k), k % 2, 1, Two)
    ensures CExec(PointAt(k), 1, PointActs(k)) == PointAt(8)
    decreases 8 - k
  {
    hide Step, CStep, Invariant, Point;
    PointIsReached(k);
    if k < 8 {
      PointCounts(k);
      PointSteps(k);
      PointRuns(k + 1);
      PointIsOne(k);
      assert PointActs(k)[1..] == PointActs(k + 1);
    }
  }

  lemma PointIsOne(k: nat)
    requires k <= 8
    ensures |Point(k).consumers| == 1
  {
  }

  /** With as many consumers as the queue holds words, a run can pass the limit: the push that wraps
      the one total leaves its word alone in the queue, and the pop of that word wraps the other. */
  lemma RunPassesLimit()
    ensures AtStart(OneAndOne().test) && Settled(OneAndOne()) && OneAndOne().totals.pushed + Two(1) >= LIMIT
    ensures exists acts :: Idle(acts) && InTurn(OneAndOne().test, acts, 0, 1, Two)
                           && Ends(CExec(OneAndOne(), 1, acts), 1)
  {
    hide PointActs, CExec, InTurn, Idle, Ends, Point, Exact;
    PointRuns(0);
    PointZero();
    BootIsAtStart(1);
    var acts := PointActs(0);
    assert CExec(OneAndOne(), 1, acts) == PointAt(8);
    PointEnds();
  }

  lemma PointEnds()
    ensures Ends(PointAt(8), 1)
  {
    hide Invariant, Numbers, Sum;
    PointIsReached(8);
    InvariantMeans(Point(8));
    assert Point(8).received + [] == Point(8).received;
  }
}
