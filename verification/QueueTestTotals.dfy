/** The self-test with the ring queue's shared totals (src/ringq.c, src/main.c): the comparison of
    the totals can stop the program in the middle of a slice, and the queues of other tasks count
    towards it. */
module QueueTestTotals {
  import opened Words
  import RingQueue
  import opened QueueTest
  import opened QueueTestRounds

  /** The test at its last yield point, the shared totals, and the words in all other queues. */
  datatype Counted = Counted(test: Test, totals: RingQueue.Totals, others: nat)

  /** What other tasks do to other queues: an accepted push, a pop, or a re-initialisation that
      drops up to n words. */
  datatype Side = OtherPush | OtherPop | OtherDrop(n: nat)

  datatype Act = Task(turn: Turn) | Other(side: Side)

  // ---- One step ----

  /** How many words a slice pushes, and how many it pops. */
  function Pushes(t: Test, cap: nat, turn: Turn): nat
    requires Invariant(t)
  {
    match turn
    case Consumer(_) => 0
    case Producer(pick) =>
      SliceSends(t, cap, pick);
      if t.producer == Top then 0 else Step(t, cap, turn).sent - t.sent
  }

  function Pops(t: Test, cap: nat, turn: Turn): (p: nat)
    requires Invariant(t)
    ensures p <= 1
  {
    if turn.Consumer? && t.queue != [] && |Step(t, cap, turn).queue| < |t.queue| then 1 else 0
  }

  /** k pushes in a row; the one that raises the alarm is the last. */
  function CountPushes(t: RingQueue.Totals, k: nat): RingQueue.Totals {
    if k == 0 then t
    else
      var u := CountPushes(t, k - 1);
      if u.halted then u else RingQueue.CountPush(u)
  }

  function CountSlice(t: RingQueue.Totals, pushes: nat, pops: nat): RingQueue.Totals {
    var u := CountPushes(t, pushes);
    if u.halted || pops == 0 then u else RingQueue.CountPop(u)
  }

  /** When the alarm is raised inside a slice, no further yield point is reached. */
  function CStep(c: Counted, cap: nat, a: Act): (d: Counted)
    requires Invariant(c.test)
    ensures Invariant(d.test)
  {
    if c.totals.halted then c
    else
      match a
      case Task(turn) =>
        StepKeeps(c.test, cap, turn);
        var totals := CountSlice(c.totals, Pushes(c.test, cap, turn), Pops(c.test, cap, turn));
        Counted(if totals.halted then c.test else Step(c.test, cap, turn), totals, c.others)
      case Other(OtherPush) => Counted(c.test, RingQueue.CountPush(c.totals), c.others + 1)
      case Other(OtherPop) =>
        if c.others == 0 then c else Counted(c.test, RingQueue.CountPop(c.totals), c.others - 1)
      case Other(OtherDrop(n)) => c.(others := if n <= c.others then c.others - n else 0)
  }

  function CExec(c: Counted, cap: nat, acts: seq<Act>): (d: Counted)
    requires Invariant(c.test)
    ensures Invariant(d.test)
    decreases |acts|
  {
    if acts == [] then c else CExec(CStep(c, cap, acts[0]), cap, acts[1..])
  }

  // ---- Safety, for every interleaving ----

  /** Whatever the interleaving of the test's tasks and of tasks with other queues, the capacity,
      the item counts and the number of consumers, alarm or not: at every yield point that is
      reached the words popped this run followed by the queue are 1..sent, counts and sums agree,
      and neither fail_halt of the producer has been reached. */
  lemma SafeForEveryInterleaving(c: Counted, cap: nat, acts: seq<Act>)
    requires Invariant(c.test)
    ensures var u := CExec(c, cap, acts).test;
            && !u.halted
            && u.received + u.queue == Numbers(u.sent)
            && u.recv + |u.queue| == u.sent
            && u.recvSum + Sum(u.queue) == u.sentSum
  {
    InvariantMeans(CExec(c, cap, acts).test);
  }

  // ---- Without an alarm the totals are only counted ----

  /** Running, and everything queued anywhere has been counted as pushed and not yet as popped. */
  predicate Fine(c: Counted) {
    && Invariant(c.test) && !c.totals.halted
    && c.totals.popped + |c.test.queue| + c.others <= c.totals.pushed
  }

  /** Words counted as pushed that no queue holds any more: only a re-initialisation makes such. */
  function Lost(c: Counted): int {
    c.totals.pushed - c.totals.popped - |c.test.queue| - c.others
  }

  predicate IsDrop(a: Act) {
    a.Other? && a.side.OtherDrop?
  }

  predicate NoDrops(acts: seq<Act>) {
    forall i | 0 <= i < |acts| :: !IsDrop(acts[i])
  }

  function ActPushes(t: Test, cap: nat, a: Act): nat
    requires Invariant(t)
  {
    match a
    case Task(turn) => Pushes(t, cap, turn)
    case Other(side) => if side.OtherPush? then 1 else 0
  }

  /** The test alone. */
  function TestStep(t: Test, cap: nat, a: Act): (u: Test)
    requires Invariant(t)
    ensures Invariant(u)
  {
    match a
    case Task(turn) => StepKeeps(t, cap, turn); Step(t, cap, turn)
    case Other(_) => t
  }

  function TestExec(t: Test, cap: nat, acts: seq<Act>): (u: Test)
    requires Invariant(t)
    ensures Invariant(u)
    decreases |acts|
  {
    if acts == [] then t else TestExec(TestStep(t, cap, acts[0]), cap, acts[1..])
  }

  function PushesOf(t: Test, cap: nat, acts: seq<Act>): nat
    requires Invariant(t)
    decreases |acts|
  {
    if acts == [] then 0 else ActPushes(t, cap, acts[0]) + PushesOf(TestStep(t, cap, acts[0]), cap, acts[1..])
  }

  lemma {:induction false} CountsSilently(t: RingQueue.Totals, k: nat)
    requires !t.halted && t.popped <= t.pushed && t.pushed + k < 0x1_0000_0000
    ensures CountPushes(t, k) == t.(pushed := t.pushed + k)
  {
    if k > 0 {
      CountsSilently(t, k - 1);
    }
  }

  /** How a slice changes the queue. */
  lemma SliceMoves(t: Test, cap: nat, turn: Turn)
    requires Invariant(t)
    ensures var u := Step(t, cap, turn);
            && |u.queue| == |t.queue| + Pushes(t, cap, turn) - Pops(t, cap, turn)
            && (Pops(t, cap, turn) == 1 ==> Pushes(t, cap, turn) == 0)
            && |u.consumers| == |t.consumers|
  {
    hide Sum, Numbers;
    if turn.Producer? {
      SliceSends(t, cap, turn.pick);
    }
  }

  lemma StepIsFine(c: Counted, cap: nat, a: Act)
    requires Fine(c) && c.totals.pushed + ActPushes(c.test, cap, a) < 0x1_0000_0000
    ensures var d := CStep(c, cap, a);
            && Fine(d) && d.test == TestStep(c.test, cap, a)
            && d.totals.pushed == c.totals.pushed + ActPushes(c.test, cap, a)
            && (!IsDrop(a) ==> Lost(d) == Lost(c))
  {
    hide Invariant, Step, Pushes, Pops;
    if a.Task? {
      SliceMoves(c.test, cap, a.turn);
      CountsSilently(c.totals, Pushes(c.test, cap, a.turn));
      StepKeeps(c.test, cap, a.turn);
    }
  }

  /** Below 2^32 pushes no alarm is raised, and the totals do not disturb the test. */
  lemma {:induction false} ExecIsFine(c: Counted, cap: nat, acts: seq<Act>)
    requires Fine(c) && c.totals.pushed + PushesOf(c.test, cap, acts) < 0x1_0000_0000
    ensures var d := CExec(c, cap, acts);
            && Fine(d) && d.test == TestExec(c.test, cap, acts)
            && d.totals.pushed == c.totals.pushed + PushesOf(c.test, cap, acts)
            && (NoDrops(acts) ==> Lost(d) == Lost(c))
    decreases |acts|
  {
    hide CStep, ActPushes, TestStep, Invariant, Lost;
    if acts != [] {
      assert NoDrops(acts) ==> !IsDrop(acts[0]);
      StepIsFine(c, cap, acts[0]);
      ExecIsFine(CStep(c, cap, acts[0]), cap, acts[1..]);
    }
  }

  // ---- Round robin, with other tasks in between ----

  /** The test's slices come in cyclic order from task j on, whatever comes in between. */
  predicate InTurn(t: Test, acts: seq<Act>, j: nat, cap: nat, pick: nat -> U16)
    requires Invariant(t)
    decreases |acts|
  {
    acts == [] ||
    (j <= |t.consumers| &&
     (acts[0].Task? ==> acts[0].turn == TurnFor(j, t, pick)) &&
     InTurn(TestStep(t, cap, acts[0]), acts[1..],
            if acts[0].Task? then Following(j, |t.consumers| + 1) else j, cap, pick))
  }

  function Slices(acts: seq<Act>): nat {
    if acts == [] then 0 else (if acts[0].Task? then 1 else 0) + Slices(acts[1..])
  }

  function OtherPushes(acts: seq<Act>): nat {
    if acts == [] then 0 else (if acts[0] == Other(OtherPush) then 1 else 0) + OtherPushes(acts[1..])
  }

  lemma TestStepKeepsConsumers(t: Test, cap: nat, a: Act)
    requires Invariant(t)
    ensures |TestStep(t, cap, a).consumers| == |t.consumers|
  {
    hide Invariant;
    if a.Task? {
      SliceMoves(t, cap, a.turn);
    }
  }

  lemma {:induction false} InTurnIsCycle(t: Test, acts: seq<Act>, j: nat, cap: nat, pick: nat -> U16)
    requires Invariant(t) && InTurn(t, acts, j, cap, pick) && j <= |t.consumers|
    ensures TestExec(t, cap, acts) == Cycle(t, j, |t.consumers| + 1, Slices(acts), cap, pick)
    decreases |acts|
  {
    hide Invariant, Step;
    if acts != [] {
      TestStepKeepsConsumers(t, cap, acts[0]);
      InTurnIsCycle(TestStep(t, cap, acts[0]), acts[1..],
                    if acts[0].Task? then Following(j, |t.consumers| + 1) else j, cap, pick);
    }
  }

  /** A schedule with at least k slices has a beginning with exactly k; both parts are in turn. */
  lemma {:induction false} StopsAt(t: Test, acts: seq<Act>, j: nat, k: nat, cap: nat, pick: nat -> U16) returns (p: nat)
    requires Invariant(t) && InTurn(t, acts, j, cap, pick) && k <= Slices(acts) && j <= |t.consumers|
    ensures p <= |acts| && Slices(acts[..p]) == k && Slices(acts[p..]) == Slices(acts) - k
    ensures OtherPushes(acts[..p]) + OtherPushes(acts[p..]) == OtherPushes(acts)
    ensures InTurn(t, acts[..p], j, cap, pick)
    ensures InTurn(TestExec(t, cap, acts[..p]), acts[p..], After(j, |t.consumers| + 1, k), cap, pick)
    decreases |acts|
  {
    hide Invariant, Step, TestStep;
    if k == 0 {
      p := 0;
      assert acts[0..] == acts;
    } else {
      var n, task := |t.consumers| + 1, acts[0].Task?;
      TestStepKeepsConsumers(t, cap, acts[0]);
      p := StopsAt(TestStep(t, cap, acts[0]), acts[1..], if task then Following(j, n) else j,
                   if task then k - 1 else k, cap, pick);
      p := p + 1;
      assert acts[..p][1..] == acts[1..][..p - 1] && acts[p..] == acts[1..][p - 1..];
    }
  }

  /** The task k places behind j. */
  function After(j: nat, n: nat, k: nat): (i: nat)
    requires j < n
    ensures i < n
    decreases k
  {
    if k == 0 then j else After(Following(j, n), n, k - 1)
  }

  lemma {:induction false} WholeRounds(j: nat, n: nat, k: nat)
    requires j < n
    ensures After(j, n, n - j + k) == After(0, n, k)
    decreases n - j
  {
    if j + 1 < n {
      WholeRounds(j + 1, n, k);
    }
  }

  lemma {:induction false} RoundsEndAtZero(n: nat, m: nat)
    requires n > 0
    ensures After(0, n, m * n) == 0
    decreases m
  {
    if m > 0 {
      RoundsEndAtZero(n, m - 1);
      assert m * n == n + (m - 1) * n;
      WholeRounds(0, n, (m - 1) * n);
    }
  }

  /** Over a part of a run, or from the reset on, the pushes are those that `sent` tells. */
  lemma {:induction false} SentCounts(t: Test, cap: nat, acts: seq<Act>)
    requires Invariant(t)
    ensures var u := TestExec(t, cap, acts);
            && u.runs >= t.runs
            && (u.runs == t.runs ==> PushesOf(t, cap, acts) == u.sent - t.sent + OtherPushes(acts))
            && (u.runs == t.runs + 1 && t.producer == Top ==> PushesOf(t, cap, acts) == u.sent + OtherPushes(acts))
    decreases |acts|
  {
    if acts != [] {
      StepSends(t, cap, acts[0]);
      hide Invariant, TestStep, ActPushes;
      SentCounts(TestStep(t, cap, acts[0]), cap, acts[1..]);
    }
  }

  lemma StepSends(t: Test, cap: nat, a: Act)
    requires Invariant(t)
    ensures var u := TestStep(t, cap, a);
            var other := if a == Other(OtherPush) then 1 else 0;
            && (u.runs == t.runs
                || (t.producer == Top && u.runs == t.runs + 1 && u.sent == 0 && ActPushes(t, cap, a) == 0))
            && (u.runs == t.runs ==> ActPushes(t, cap, a) == u.sent - t.sent + other
                                     && (t.producer == Top ==> u.producer == Top))
            && (u.runs == t.runs + 1 ==> other == 0)
  {
    hide Sum, Numbers;
    if a.Task? && a.turn.Producer? {
      SliceSends(t, cap, a.turn.pick);
    }
  }

  // ---- Every run completes below 2^32 pushes ----

  /** With the test's slices in round-robin order, the producer's first, and fewer than 2^32 pushes
      counted with the items of this run and what other tasks push to other queues: the run ends
      within as many rounds as items, plus three, for any number of consumers, any item count and
      any capacity, with everything received and every consumer in its wait loop again. */
  lemma RunCompletes(c: Counted, acts: seq<Act>, cap: nat, pick: nat -> U16) returns (p: nat)
    requires AtStart(c.test) && Fine(c) && cap > 0 && InTurn(c.test, acts, 0, cap, pick)
    requires Slices(acts) >= (pick(c.test.runs + 1) + 3) * (|c.test.consumers| + 1)
    requires c.totals.pushed + pick(c.test.runs + 1) + OtherPushes(acts) < 0x1_0000_0000
    ensures p <= |acts| && Slices(acts[..p]) <= (pick(c.test.runs + 1) + 3) * (|c.test.consumers| + 1)
    ensures var d := CExec(c, cap, acts[..p]);
            && Fine(d) && Complete(d.test) && |d.test.consumers| == |c.test.consumers|
            && d.test.runs == c.test.runs + 1 && d.test.total == pick(d.test.runs)
            && d.totals.pushed == c.totals.pushed + d.test.total + OtherPushes(acts[..p])
            && InTurn(d.test, acts[p..], 0, cap, pick)
            && (NoDrops(acts) ==> Lost(d) == Lost(c))
    ensures Slices(acts[p..]) == Slices(acts) - Slices(acts[..p])
    ensures OtherPushes(acts[p..]) == OtherPushes(acts) - OtherPushes(acts[..p])
  {
    hide CExec, TestExec, InTurn, Slices, OtherPushes, PushesOf, Complete, Exact, All, Lost;
    p := TestCompletes(c.test, acts, cap, pick);
    SentCounts(c.test, cap, acts[..p]);
    CompleteSent(TestExec(c.test, cap, acts[..p]));
    ExecIsFine(c, cap, acts[..p]);
    ExecKeepsConsumers(c.test, cap, acts[..p]);
  }

  /** Were there no totals: the run ends within as many rounds as items, plus three. */
  lemma TestCompletes(t: Test, acts: seq<Act>, cap: nat, pick: nat -> U16) returns (p: nat)
    requires AtStart(t) && cap > 0 && InTurn(t, acts, 0, cap, pick)
    requires Slices(acts) >= (pick(t.runs + 1) + 3) * (|t.consumers| + 1)
    ensures p <= |acts| && Slices(acts[..p]) <= (pick(t.runs + 1) + 3) * (|t.consumers| + 1)
    ensures var u := TestExec(t, cap, acts[..p]);
            && Complete(u) && u.runs == t.runs + 1 && u.total == pick(u.runs) && InTurn(u, acts[p..], 0, cap, pick)
    ensures Slices(acts[p..]) == Slices(acts) - Slices(acts[..p])
    ensures OtherPushes(acts[p..]) == OtherPushes(acts) - OtherPushes(acts[..p])
  {
    hide TestExec, Rounds, Cycle, InTurn, Slices, OtherPushes, After, Complete, Exact, All, Leads;
    var n, bound: nat := |t.consumers| + 1, pick(t.runs + 1) + 3;
    var m, u := CompletingRounds(t, cap, pick);
    FewerRounds(m, bound, n);
    p := StopsAt(t, acts, 0, m * n, cap, pick);
    RoundsEndAtZero(n, m);
    InTurnIsCycle(t, acts[..p], 0, cap, pick);
    CycleIsRounds(t, n, m, cap, pick);
  }

  lemma CompletingRounds(t: Test, cap: nat, pick: nat -> U16) returns (m: nat, u: Test)
    requires AtStart(t) && cap > 0
    ensures m <= pick(t.runs + 1) + 3 && u == Rounds(t, cap, pick, m)
    ensures Complete(u) && u.runs == t.runs + 1 && u.total == pick(u.runs)
  {
    RoundsComplete(t, cap, pick);
    u :| Leads(t, u, cap, pick, pick(t.runs + 1) + 3) && Complete(u) && u.runs == t.runs + 1 && u.total == pick(u.runs);
    m :| m <= pick(t.runs + 1) + 3 && u == Rounds(t, cap, pick, m);
  }

  lemma FewerRounds(m: nat, bound: nat, n: nat)
    requires m <= bound
    ensures m * n <= bound * n
  {
  }

  lemma CompleteSent(t: Test)
    requires Complete(t)
    ensures t.sent == t.total
  {
    InvariantMeans(t);
    assert t.received + t.queue == t.received;
  }

  lemma {:induction false} ExecKeepsConsumers(t: Test, cap: nat, acts: seq<Act>)
    requires Invariant(t)
    ensures |TestExec(t, cap, acts).consumers| == |t.consumers|
    decreases |acts|
  {
    hide Invariant, TestStep;
    if acts != [] {
      TestStepKeepsConsumers(t, cap, acts[0]);
      ExecKeepsConsumers(TestStep(t, cap, acts[0]), cap, acts[1..]);
    }
  }

  /** The items of the m runs after run number r, and the rounds they can take. */
  function Items(pick: nat -> U16, r: nat, m: nat): nat
    decreases m
  {
    if m == 0 then 0 else pick(r + 1) + Items(pick, r + 1, m - 1)
  }

  function RoundsFor(pick: nat -> U16, r: nat, m: nat): nat
    decreases m
  {
    if m == 0 then 0 else pick(r + 1) + 3 + RoundsFor(pick, r + 1, m - 1)
  }

  /** Any number of further runs complete, as long as their items and the pushes to other queues
      keep the count of pushes below 2^32. */
  lemma {:induction false} EveryRunCompletes(c: Counted, acts: seq<Act>, cap: nat, pick: nat -> U16, m: nat)
    returns (p: nat)
    requires AtStart(c.test) && Fine(c) && cap > 0 && InTurn(c.test, acts, 0, cap, pick)
    requires Slices(acts) >= RoundsFor(pick, c.test.runs, m) * (|c.test.consumers| + 1)
    requires c.totals.pushed + Items(pick, c.test.runs, m) + OtherPushes(acts) < 0x1_0000_0000
    ensures p <= |acts|
    ensures var d := CExec(c, cap, acts[..p]);
            && Fine(d) && AtStart(d.test) && d.test.runs == c.test.runs + m
            && (m > 0 ==> Complete(d.test) && d.test.total == pick(d.test.runs))
            && d.totals.pushed == c.totals.pushed + Items(pick, c.test.runs, m) + OtherPushes(acts[..p])
    decreases m
  {
    hide InTurn, AtStart, Exact, Fine, Complete, CExec, Slices, OtherPushes;
    StartIsValid(c.test);
    if m == 0 {
      p := 0;
      NothingDone(c, cap, acts);
    } else {
      var r, n := c.test.runs, |c.test.consumers| + 1;
      SplitsRounds(pick(r + 1) + 3, RoundsFor(pick, r + 1, m - 1), n);
      p := RunCompletes(c, acts, cap, pick);
      var d := CExec(c, cap, acts[..p]);
      CompleteIsStart(d.test);
      if m > 1 {
        var q := EveryRunCompletes(d, acts[p..], cap, pick, m - 1);
        assert acts[..p + q] == acts[..p] + acts[p..][..q];
        ExecConcat(c, cap, acts[..p], acts[p..][..q]);
        p := p + q;
      }
    }
  }

  lemma NothingDone(c: Counted, cap: nat, acts: seq<Act>)
    requires Invariant(c.test)
    ensures CExec(c, cap, acts[..0]) == c && OtherPushes(acts[..0]) == 0
  {
  }

  lemma StartIsValid(t: Test)
    requires AtStart(t)
    ensures Invariant(t)
  {
  }

  lemma SplitsRounds(a: nat, b: nat, n: nat)
    ensures (a + b) * n == a * n + b * n
  {
  }

  lemma {:induction false} ExecConcat(c: Counted, cap: nat, a: seq<Act>, b: seq<Act>)
    requires Invariant(c.test)
    ensures CExec(c, cap, a + b) == CExec(CExec(c, cap, a), cap, b)
    ensures OtherPushes(a + b) == OtherPushes(a) + OtherPushes(b)
    decreases |a|
  {
    hide Invariant, CStep;
    if a == [] {
      assert a + b == b;
    } else {
      assert (a + b)[1..] == a[1..] + b;
      ExecConcat(CStep(c, cap, a[0]), cap, a[1..], b);
    }
  }

  // ---- The handshake ----

  /** The producer has reset and waits for `ready`. */
  predicate JustReset(t: Test) {
    Invariant(t) && t.producer == AwaitReady && !t.ready && t.queue == []
  }

  lemma {:induction false} PollersNeverAnswer(c: Counted, cap: nat, acts: seq<Act>)
    requires JustReset(c.test) && All(c.test, Polling)
    ensures JustReset(CExec(c, cap, acts).test) && All(CExec(c, cap, acts).test, Polling)
    decreases |acts|
  {
    if acts != [] {
      PollersStepOn(c, cap, acts[0]);
      hide JustReset, All, CStep;
      PollersNeverAnswer(CStep(c, cap, acts[0]), cap, acts[1..]);
    }
  }

  lemma PollersStepOn(c: Counted, cap: nat, a: Act)
    requires JustReset(c.test) && All(c.test, Polling)
    ensures JustReset(CStep(c, cap, a).test) && All(CStep(c, cap, a).test, Polling)
  {
    hide CountSlice, Pushes, Pops, Exact;
  }

  lemma WaiterAnswers(c: Counted, cap: nat, k: nat)
    requires JustReset(c.test) && !c.totals.halted && k < |c.test.consumers| && c.test.consumers[k] == Waiting
    ensures CExec(c, cap, [Task(Consumer(k))]).test.ready
  {
    var acts := [Task(Consumer(k))];
    assert CExec(c, cap, acts) == CExec(CStep(c, cap, acts[0]), cap, acts[1..]);
  }

  /** After a reset the handshake is lost for good, under every schedule, exactly when no
      consumer is in its wait loop. */
  lemma HandshakeSticksExactly(c: Counted, cap: nat)
    requires JustReset(c.test) && !c.totals.halted
    ensures (forall acts :: !CExec(c, cap, acts).test.ready) <==> All(c.test, Polling)
  {
    if All(c.test, Polling) {
      forall acts ensures !CExec(c, cap, acts).test.ready {
        PollersNeverAnswer(c, cap, acts);
      }
    } else {
      var k: nat :| k < |c.test.consumers| && c.test.consumers[k] == Waiting;
      WaiterAnswers(c, cap, k);
    }
  }

  /** The slot order matters: with the consumers' slots first, their first slices run before the
      reset, and the handshake of the very first run is lost. */
  lemma ConsumersFirstSticks(n: nat, cap: nat, pick: U16, totals: RingQueue.Totals, others: nat)
    requires n > 0 && !totals.halted
    ensures var t := Step(Sweep(Boot(n), cap, 0), cap, Producer(pick));
            Invariant(t) && forall acts :: !CExec(Counted(t, totals, others), cap, acts).test.ready
  {
    SweepWakes(Boot(n), cap, 0);
    var u := Sweep(Boot(n), cap, 0);
    StepKeeps(u, cap, Producer(pick));
    HandshakeSticksExactly(Counted(Step(u, cap, Producer(pick)), totals, others), cap);
  }
}
