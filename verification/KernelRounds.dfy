/** The self-test on the kernel: in any run of the scheduler in which the test's tasks stay ready,
    they get their slices in rounds, the lowest slot first, whatever the other tasks do; so the
    self-test's runs complete there too. */
module KernelRounds {
  import opened Words
  import K = SchedulerState
  import S = SchedulerRuns
  import Q = QueueTest
  import R = QueueTestRounds
  import T = QueueTestTotals
  import RingQueue

  /** The test's slots, ascending: the producer's, then the consumers'. */
  predicate Slots(slots: seq<int>) {
    && slots != [] && (forall i | 0 <= i < |slots| :: 0 <= slots[i] < K.MAX_TASKS)
    && forall i, j | 0 <= i < j < |slots| :: slots[i] < slots[j]
  }

  predicate AllReady(s: K.State, slots: seq<int>) {
    forall i | 0 <= i < |slots| :: S.Ready(s, slots[i])
  }

  /** No action of the run ends, stops or puts to sleep a task of the test. */
  predicate KeptReady(s: K.State, acts: seq<S.Action>, slots: seq<int>)
    decreases |acts|
  {
    acts == [] ||
    ((forall i | 0 <= i < |slots| :: S.LeavesAlone(s, acts[0], slots[i]))
     && KeptReady(S.Step(s, acts[0]), acts[1..], slots))
  }

  function IndexOf(slots: seq<int>, x: int): (j: int)
    ensures -1 <= j < |slots| && (j >= 0 ==> slots[j] == x)
    ensures j < 0 ==> x !in slots
  {
    if slots == [] then -1
    else if slots[|slots| - 1] == x then |slots| - 1
    else IndexOf(slots[..|slots| - 1], x)
  }

  /** The test task, if any, that this action gives the processor to. */
  function DealtTo(s: K.State, a: S.Action, slots: seq<int>): (j: int)
    ensures -1 <= j < |slots|
  {
    if S.Yields(s, a) then IndexOf(slots, S.Step(s, a).current) else -1
  }

  /** How many slices the test's tasks get. */
  function Deals(s: K.State, acts: seq<S.Action>, slots: seq<int>): nat
    decreases |acts|
  {
    if acts == [] then 0
    else (if DealtTo(s, acts[0], slots) >= 0 then 1 else 0) + Deals(S.Step(s, acts[0]), acts[1..], slots)
  }

  /** What happens to the test and to the shared totals in a run of the kernel: the i-th action is
      preceded by what the running task does to other queues, and gives a test task its slice when
      it hands it the processor. */
  function Events(s: K.State, t: Q.Test, acts: seq<S.Action>, i: nat, sides: nat -> seq<T.Side>, slots: seq<int>,
                  cap: nat, pick: nat -> U16): seq<T.Act>
    requires Q.Invariant(t)
    decreases |acts|
  {
    if acts == [] then []
    else
      var j := DealtTo(s, acts[0], slots);
      Others(sides(i))
      + (if j >= 0 then [T.Task(R.TurnFor(j, t, pick))] else [])
      + Events(S.Step(s, acts[0]), if j >= 0 then R.Slice(t, j, cap, pick) else t, acts[1..], i + 1,
               sides, slots, cap, pick)
  }

  function Others(side: seq<T.Side>): (acts: seq<T.Act>)
    ensures |acts| == |side| && forall i | 0 <= i < |side| :: acts[i] == T.Other(side[i])
  {
    if side == [] then [] else [T.Other(side[0])] + Others(side[1..])
  }

  // ---- The kernel deals in cyclic order ----

  predicate IsNearest(slots: seq<int>, from: K.Slot, j: int)
    requires Slots(slots)
  {
    0 <= j < |slots| && forall i | 0 <= i < |slots| :: K.Distance(from, slots[j]) <= K.Distance(from, slots[i])
  }

  lemma NearestFollows(slots: seq<int>, j: int)
    requires Slots(slots) && 0 <= j < |slots|
    ensures IsNearest(slots, slots[j], R.Following(j, |slots|))
  {
    var k := R.Following(j, |slots|);
    forall i | 0 <= i < |slots| ensures K.Distance(slots[j], slots[k]) <= K.Distance(slots[j], slots[i]) {
      assert i > j ==> slots[i] > slots[j];
      assert i < j ==> slots[i] < slots[j];
    }
  }

  lemma ReadyKept(s: K.State, a: S.Action, slots: seq<int>)
    requires AllReady(s, slots) && forall i | 0 <= i < |slots| :: S.LeavesAlone(s, a, slots[i])
    ensures AllReady(S.Step(s, a), slots)
    ensures !S.Yields(s, a) && slots != [] ==> S.Step(s, a).current == s.current
  {
    hide S.Step;
    forall i | 0 <= i < |slots| ensures S.Ready(S.Step(s, a), slots[i]) {
      S.StepKeeps(s, a, slots[i]);
    }
    if slots != [] {
      S.StepKeeps(s, a, slots[0]);
    }
  }

  /** A yield gives the turn to the nearest test task, or to another task in front of it. */
  lemma YieldDeals(s: K.State, a: S.Action, slots: seq<int>, j: int)
    requires Slots(slots) && AllReady(s, slots) && IsNearest(slots, s.current, j) && S.Yields(s, a)
    requires forall i | 0 <= i < |slots| :: S.LeavesAlone(s, a, slots[i])
    ensures var d, t := DealtTo(s, a, slots), S.Step(s, a);
            || (d == j && IsNearest(slots, t.current, R.Following(j, |slots|)))
            || (d == -1 && IsNearest(slots, t.current, j)
                && K.Distance(t.current, slots[j]) < K.Distance(s.current, slots[j]))
  {
    hide K.Yield, K.Next;
    var e, t, d := S.Entering(s, a), S.Step(s, a), DealtTo(s, a, slots);
    K.YieldMoves(e, a.flags);
    K.NextSelects(K.Tick(e), s.current);
    assert S.Ready(s, slots[j]) && S.LeavesAlone(s, a, slots[j]);
    assert K.Eligible(K.Tick(e), slots[j]);
    if d >= 0 {
      assert S.Ready(s, slots[d]) && slots[d] == t.current;
      assert K.Distance(s.current, slots[j]) <= K.Distance(s.current, slots[d]);
      assert slots[d] == slots[j];
      assert d == j;
      NearestFollows(slots, j);
    } else {
      S.YieldApproaches(s, a, slots[j]);
      forall i | 0 <= i < |slots| ensures K.Distance(t.current, slots[j]) <= K.Distance(t.current, slots[i]) {
        if i != j {
          assert slots[i] != slots[j];
          assert S.Ready(s, slots[i]) && S.LeavesAlone(s, a, slots[i]);
          S.NearerTurn(s, a, slots[j], slots[i]);
        }
      }
    }
  }

  lemma {:induction false} OthersKeepTurn(side: seq<T.Side>, t: Q.Test, rest: seq<T.Act>, j: nat, cap: nat,
                                          pick: nat -> U16)
    requires Q.Invariant(t) && T.InTurn(t, rest, j, cap, pick) && j <= |t.consumers|
    ensures T.InTurn(t, Others(side) + rest, j, cap, pick) && T.Slices(Others(side) + rest) == T.Slices(rest)
  {
    hide Q.Invariant, Q.Step;
    var acts := Others(side) + rest;
    if side == [] {
      assert acts == rest;
    } else {
      assert acts[0] == T.Other(side[0]) && acts[1..] == Others(side[1..]) + rest;
      OthersKeepTurn(side[1..], t, rest, j, cap, pick);
    }
  }

  lemma TaskTakesTurn(t: Q.Test, rest: seq<T.Act>, j: nat, cap: nat, pick: nat -> U16)
    requires Q.Invariant(t) && j <= |t.consumers|
    requires T.InTurn(R.Slice(t, j, cap, pick), rest, R.Following(j, |t.consumers| + 1), cap, pick)
    ensures var acts := [T.Task(R.TurnFor(j, t, pick))] + rest;
            T.InTurn(t, acts, j, cap, pick) && T.Slices(acts) == 1 + T.Slices(rest)
  {
    hide Q.Invariant, Q.Step;
    var acts := [T.Task(R.TurnFor(j, t, pick))] + rest;
    assert acts[1..] == rest;
  }

  /** Over every run the test's slices come in cyclic order of the slots, one for each deal. */
  lemma {:induction false} DealsAreCyclic(s: K.State, t: Q.Test, acts: seq<S.Action>, i: nat, sides: nat -> seq<T.Side>,
                                         slots: seq<int>, j: int, cap: nat, pick: nat -> U16)
    requires Slots(slots) && AllReady(s, slots) && KeptReady(s, acts, slots) && IsNearest(slots, s.current, j)
    requires Q.Invariant(t) && 0 <= j < |slots| == |t.consumers| + 1
    ensures var events := Events(s, t, acts, i, sides, slots, cap, pick);
            T.InTurn(t, events, j, cap, pick) && T.Slices(events) == Deals(s, acts, slots)
    decreases |acts|
  {
    hide S.Step, AllReady, IsNearest, R.Slice, Q.Invariant, DealtTo, T.InTurn, T.Slices, Others;
    if acts == [] {
      NoEvents(t, j, cap, pick);
    } else {
      var a, u, d := acts[0], S.Step(s, acts[0]), DealtTo(s, acts[0], slots);
      ReadyKept(s, a, slots);
      NextNearest(s, a, slots, j);
      if d >= 0 {
        SliceKeepsConsumers(t, j, cap, pick);
        var rest := Events(u, R.Slice(t, j, cap, pick), acts[1..], i + 1, sides, slots, cap, pick);
        DealsAreCyclic(u, R.Slice(t, j, cap, pick), acts[1..], i + 1, sides, slots, R.Following(j, |slots|), cap, pick);
        TaskTakesTurn(t, rest, j, cap, pick);
        OthersKeepTurn(sides(i), t, [T.Task(R.TurnFor(j, t, pick))] + rest, j, cap, pick);
        assert Others(sides(i)) + ([T.Task(R.TurnFor(j, t, pick))] + rest)
            == Others(sides(i)) + [T.Task(R.TurnFor(j, t, pick))] + rest;
      } else {
        var rest := Events(u, t, acts[1..], i + 1, sides, slots, cap, pick);
        DealsAreCyclic(u, t, acts[1..], i + 1, sides, slots, j, cap, pick);
        OthersKeepTurn(sides(i), t, rest, j, cap, pick);
        assert Others(sides(i)) + [] + rest == Others(sides(i)) + rest;
      }
    }
  }

  lemma NoEvents(t: Q.Test, j: int, cap: nat, pick: nat -> U16)
    requires Q.Invariant(t) && 0 <= j
    ensures T.InTurn(t, [], j, cap, pick) && T.Slices([]) == 0
  {
  }

  lemma SliceKeepsConsumers(t: Q.Test, j: nat, cap: nat, pick: nat -> U16)
    requires Q.Invariant(t)
    ensures |R.Slice(t, j, cap, pick).consumers| == |t.consumers|
  {
    T.SliceMoves(t, cap, R.TurnFor(j, t, pick));
  }

  /** An action that does not yield changes neither the turn nor who is next. */
  lemma NextNearest(s: K.State, a: S.Action, slots: seq<int>, j: int)
    requires Slots(slots) && AllReady(s, slots) && IsNearest(slots, s.current, j)
    requires forall i | 0 <= i < |slots| :: S.LeavesAlone(s, a, slots[i])
    ensures var d, t := DealtTo(s, a, slots), S.Step(s, a);
            && (d >= 0 ==> d == j && S.Yields(s, a) && IsNearest(slots, t.current, R.Following(j, |slots|)))
            && (d < 0 ==> IsNearest(slots, t.current, j))
            && (d < 0 && S.Yields(s, a) ==> K.Distance(t.current, slots[j]) < K.Distance(s.current, slots[j]))
            && (!S.Yields(s, a) ==> t.current == s.current)
  {
    hide S.Step;
    ReadyKept(s, a, slots);
    if S.Yields(s, a) {
      YieldDeals(s, a, slots, j);
    }
  }

  /** The test's tasks are not starved: each slice takes at most 10 yields of the kernel. */
  lemma {:induction false} DealsKeepComing(s: K.State, acts: seq<S.Action>, slots: seq<int>, j: int)
    requires Slots(slots) && AllReady(s, slots) && KeptReady(s, acts, slots) && IsNearest(slots, s.current, j)
    requires 0 <= j < |slots|
    ensures S.YieldCount(s, acts) <= K.Distance(s.current, slots[j]) + K.MAX_TASKS * Deals(s, acts, slots)
    decreases |acts|
  {
    hide S.Step, AllReady, IsNearest, DealtTo;
    if acts != [] {
      ReadyKept(s, acts[0], slots);
      NextNearest(s, acts[0], slots, j);
      var d := DealtTo(s, acts[0], slots);
      DealsKeepComing(S.Step(s, acts[0]), acts[1..], slots, if d >= 0 then R.Following(j, |slots|) else j);
    }
  }

  // ---- The self-test completes on the kernel ----

  /** The event list leads, at some point, to the end of the k-th further run. */
  predicate RunEnds(c: T.Counted, events: seq<T.Act>, cap: nat, pick: nat -> U16, k: nat)
    requires Q.Invariant(c.test)
  {
    exists p: nat | p <= |events| ::
      var d := T.CExec(c, cap, events[..p]);
      T.Fine(d) && R.Complete(d.test) && d.test.runs == c.test.runs + k && d.test.total == pick(d.test.runs)
  }

  /** Each of the m further runs ends. */
  predicate RunsEnd(c: T.Counted, events: seq<T.Act>, cap: nat, pick: nat -> U16, m: nat)
    requires Q.Invariant(c.test)
  {
    forall k | 1 <= k <= m :: RunEnds(c, events, cap, pick, k)
  }

  lemma {:induction false} FewerRuns(pick: nat -> U16, r: nat, k: nat, m: nat)
    requires k <= m
    ensures T.RoundsFor(pick, r, k) <= T.RoundsFor(pick, r, m) && T.Items(pick, r, k) <= T.Items(pick, r, m)
    decreases k
  {
    if k > 0 {
      FewerRuns(pick, r + 1, k - 1, m - 1);
    }
  }

  lemma EventsEnd(c: T.Counted, events: seq<T.Act>, cap: nat, pick: nat -> U16, m: nat)
    requires R.AtStart(c.test) && T.Fine(c) && cap > 0 && T.InTurn(c.test, events, 0, cap, pick)
    requires T.Slices(events) >= T.RoundsFor(pick, c.test.runs, m) * (|c.test.consumers| + 1)
    requires c.totals.pushed + T.Items(pick, c.test.runs, m) + T.OtherPushes(events) < 0x1_0000_0000
    ensures RunsEnd(c, events, cap, pick, m)
  {
    hide T.CExec, R.Complete, T.InTurn, R.All, Q.Exact, T.Fine, RunEnds;
    forall k | 1 <= k <= m ensures RunEnds(c, events, cap, pick, k) {
      FewerRuns(pick, c.test.runs, k, m);
      T.FewerRounds(T.RoundsFor(pick, c.test.runs, k), T.RoundsFor(pick, c.test.runs, m), |c.test.consumers| + 1);
      RunEndsAt(c, events, cap, pick, k);
    }
  }

  lemma RunEndsAt(c: T.Counted, events: seq<T.Act>, cap: nat, pick: nat -> U16, k: nat)
    requires R.AtStart(c.test) && T.Fine(c) && cap > 0 && k > 0 && T.InTurn(c.test, events, 0, cap, pick)
    requires T.Slices(events) >= T.RoundsFor(pick, c.test.runs, k) * (|c.test.consumers| + 1)
    requires c.totals.pushed + T.Items(pick, c.test.runs, k) + T.OtherPushes(events) < 0x1_0000_0000
    ensures RunEnds(c, events, cap, pick, k)
  {
    hide T.CExec, R.Complete, T.InTurn, T.Fine;
    var p := T.EveryRunCompletes(c, events, cap, pick, k);
    var d := T.CExec(c, cap, events[..p]);
  }

  /** In every run of the kernel that keeps the test's tasks ready and yields often enough, ten
      times for each slice, with the producer's slot next: each of the next m self-test runs ends
      with everything received and every consumer back in its wait loop, whatever the other tasks
      do, as long as their items and the pushes to other queues keep the count below 2^32. */
  lemma SelfTestCompletes(s: K.State, c: T.Counted, acts: seq<S.Action>, i: nat, sides: nat -> seq<T.Side>,
                          slots: seq<int>, cap: nat, pick: nat -> U16, m: nat)
    requires Slots(slots) && AllReady(s, slots) && KeptReady(s, acts, slots) && IsNearest(slots, s.current, 0)
    requires R.AtStart(c.test) && T.Fine(c) && |c.test.consumers| == |slots| - 1 && cap > 0
    requires S.YieldCount(s, acts) >= K.MAX_TASKS * (T.RoundsFor(pick, c.test.runs, m) * |slots| + 1)
    requires c.totals.pushed + T.Items(pick, c.test.runs, m)
             + T.OtherPushes(Events(s, c.test, acts, i, sides, slots, cap, pick)) < 0x1_0000_0000
    ensures RunsEnd(c, Events(s, c.test, acts, i, sides, slots, cap, pick), cap, pick, m)
  {
    hide Deals, S.YieldCount, AllReady, KeptReady, Events, RunsEnd, T.Fine, R.All, Q.Exact;
    DealsKeepComing(s, acts, slots, 0);
    EnoughDeals(S.YieldCount(s, acts), Deals(s, acts, slots), K.Distance(s.current, slots[0]),
                T.RoundsFor(pick, c.test.runs, m) * |slots|);
    DealsAreCyclic(s, c.test, acts, i, sides, slots, 0, cap, pick);
    EventsEnd(c, Events(s, c.test, acts, i, sides, slots, cap, pick), cap, pick, m);
  }

  lemma EnoughDeals(turns: nat, deals: nat, distance: int, needed: nat)
    requires turns <= distance + K.MAX_TASKS * deals && distance < K.MAX_TASKS
    requires turns >= K.MAX_TASKS * (needed + 1)
    ensures needed <= deals
  {
  }

  // ---- From the start of the program ----

  /** The first n slots hold fresh tasks, and nothing runs yet. */
  predicate Loaded(s: K.State, n: nat) {
    && s.current == -1 && s.idle == -1 && n <= K.MAX_TASKS
    && (forall x | 0 <= x < n :: s.tasks[x].inUse && s.tasks[x].wakeTick == 0)
    && forall x | n <= x < K.MAX_TASKS :: !s.tasks[x].inUse
  }

  predicate OnlyAdds(acts: seq<S.Action>) {
    forall i | 0 <= i < |acts| :: acts[i].DoAdd?
  }

  lemma {:induction false} AddsLoad(s: K.State, adds: seq<S.Action>, n: nat)
    requires Loaded(s, n) && OnlyAdds(adds) && n + |adds| <= K.MAX_TASKS
    ensures Loaded(S.Exec(s, adds), n + |adds|)
    decreases |adds|
  {
    if adds != [] {
      assert adds[0].DoAdd?;
      assert K.FreeSlot(s.tasks, 0) == n;
      AddsLoad(S.Step(s, adds[0]), adds[1..], n + 1);
    }
  }

  /** scheduler_run dispatches slot 0, and every loaded task is ready. */
  lemma RunDispatchesFirst(s: K.State, n: nat, flags: Words.Byte)
    requires Loaded(s, n) && n > 0
    ensures var t := S.Step(s, S.DoRun(flags));
            t.current == 0 && forall x | 0 <= x < n :: S.Ready(t, x)
  {
    hide K.Switch, K.Next, K.Scan;
    K.NextSelects(s, -1);
    assert K.Eligible(s, 0);
    var first := K.Next(s, -1);
    K.SwitchKeepsCalls(s.(current := first), K.SCHED_CTX, first, flags);
    forall x | 0 <= x < n ensures S.Ready(S.Step(s, S.DoRun(flags)), x) {
      assert K.SameCall(S.Step(s, S.DoRun(flags)).tasks[x], s.tasks[x]);
    }
  }

  /** From scheduler_init on: main adds its tasks, among them the producer in front of the
      consumers, and starts the kernel; each of the first m self-test runs ends.  A producer in slot 0
      gets its first slice from scheduler_run itself. */
  lemma SelfTestFromBoot(init: K.State, adds: seq<S.Action>, flags: Words.Byte, acts: seq<S.Action>,
                         sides: nat -> seq<T.Side>, slots: seq<int>, cap: nat, pick: nat -> U16, m: nat)
    requires Loaded(init, 0) && OnlyAdds(adds) && |adds| <= K.MAX_TASKS
    requires Slots(slots) && |slots| > 1 && cap > 0 && forall i | 0 <= i < |slots| :: slots[i] < |adds|
    requires KeptReady(S.Step(S.Exec(init, adds), S.DoRun(flags)), acts, slots)
    requires S.YieldCount(S.Step(S.Exec(init, adds), S.DoRun(flags)), acts)
             >= K.MAX_TASKS * (T.RoundsFor(pick, 0, m) * |slots| + 1)
    requires T.Items(pick, 0, m) + T.OtherPushes(BootEvents(init, adds, flags, acts, sides, slots, cap, pick))
             < 0x1_0000_0000
    ensures RunsEnd(T.Counted(Q.Boot(|slots| - 1), RingQueue.Totals(0, 0, false), 0),
                    BootEvents(init, adds, flags, acts, sides, slots, cap, pick), cap, pick, m)
  {
    hide Deals, S.YieldCount, KeptReady, BootEvents, RunsEnd, S.Exec, S.Step, Q.Exact, K.Distance;
    var c := T.Counted(Q.Boot(|slots| - 1), RingQueue.Totals(0, 0, false), 0);
    Q.BootInvariant(|slots| - 1);
    R.BootIsAtStart(|slots| - 1);
    BootDeals(init, adds, flags, acts, sides, slots, cap, pick, T.RoundsFor(pick, 0, m) * |slots|);
    EventsEnd(c, BootEvents(init, adds, flags, acts, sides, slots, cap, pick), cap, pick, m);
  }

  /** From the start on the producer's slice is the first, and the slices keep coming. */
  lemma BootDeals(init: K.State, adds: seq<S.Action>, flags: Words.Byte, acts: seq<S.Action>,
                  sides: nat -> seq<T.Side>, slots: seq<int>, cap: nat, pick: nat -> U16, needed: nat)
    requires Loaded(init, 0) && OnlyAdds(adds) && |adds| <= K.MAX_TASKS
    requires Slots(slots) && |slots| > 1 && forall i | 0 <= i < |slots| :: slots[i] < |adds|
    requires KeptReady(S.Step(S.Exec(init, adds), S.DoRun(flags)), acts, slots)
    requires S.YieldCount(S.Step(S.Exec(init, adds), S.DoRun(flags)), acts) >= K.MAX_TASKS * (needed + 1)
    ensures Q.Invariant(Q.Boot(|slots| - 1))
    ensures var events := BootEvents(init, adds, flags, acts, sides, slots, cap, pick);
            T.InTurn(Q.Boot(|slots| - 1), events, 0, cap, pick) && T.Slices(events) >= needed
  {
    hide Deals, S.YieldCount, KeptReady, Events, S.Exec, S.Step, Q.Exact, T.InTurn, T.Slices, R.Slice;
    var t, s := Q.Boot(|slots| - 1), S.Step(S.Exec(init, adds), S.DoRun(flags));
    AddsLoad(init, adds, 0);
    RunDispatchesFirst(S.Exec(init, adds), |adds|, flags);
    Q.BootInvariant(|slots| - 1);
    FirstNearest(slots);
    var j := if slots[0] == 0 then 1 else 0;
    DealsKeepComing(s, acts, slots, j);
    EnoughDeals(S.YieldCount(s, acts), Deals(s, acts, slots), K.Distance(s.current, slots[j]), needed);
    if j == 1 {
      SliceKeepsConsumers(t, 0, cap, pick);
      DealsAreCyclic(s, R.Slice(t, 0, cap, pick), acts, 0, sides, slots, 1, cap, pick);
      TaskTakesTurn(t, Events(s, R.Slice(t, 0, cap, pick), acts, 0, sides, slots, cap, pick), 0, cap, pick);
    } else {
      DealsAreCyclic(s, t, acts, 0, sides, slots, 0, cap, pick);
    }
  }

  function BootEvents(init: K.State, adds: seq<S.Action>, flags: Words.Byte, acts: seq<S.Action>,
                      sides: nat -> seq<T.Side>, slots: seq<int>, cap: nat, pick: nat -> U16): seq<T.Act>
    requires Slots(slots)
  {
    Q.BootInvariant(|slots| - 1);
    var t, s := Q.Boot(|slots| - 1), S.Step(S.Exec(init, adds), S.DoRun(flags));
    if slots[0] == 0 then
      [T.Task(R.TurnFor(0, t, pick))] + Events(s, R.Slice(t, 0, cap, pick), acts, 0, sides, slots, cap, pick)
    else Events(s, t, acts, 0, sides, slots, cap, pick)
  }

  lemma FirstNearest(slots: seq<int>)
    requires Slots(slots) && |slots| > 1
    ensures IsNearest(slots, 0, if slots[0] == 0 then 1 else 0)
  {
  }
}
