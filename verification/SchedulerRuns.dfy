/** Whole runs of the scheduler: what holds over every sequence of kernel calls, with the
    running task free to compute in between. */
module SchedulerRuns {
  import opened Words
  import opened SchedulerState

  datatype Action =
    | Work(page: Page, sp: Byte)               // the running task rewrites its stack page and moves SP
    | DoRun(flags: Byte)
    | DoYield(flags: Byte)
    | DoSleep(delta: U16, flags: Byte)
    | DoReturn(flags: Byte)
    | DoAdd(fn: int, arg: int, once: bool)
    | DoRemove(id: int)
    | DoSetIdle(id: int)

  function Step(s: State, a: Action): State {
    match a
    case Work(page, sp) => s.(page := page, sp := sp)
    case DoRun(flags) => Run(s, flags)
    case DoYield(flags) => Yield(s, flags)
    case DoSleep(delta, flags) => Sleep(s, delta, flags)
    case DoReturn(flags) => TaskReturn(s, flags)
    case DoAdd(fn, arg, once) => Add(s, fn, arg, once)
    case DoRemove(id) => Remove(s, id)
    case DoSetIdle(id) => SetIdle(s, id)
  }

  function Exec(s: State, acts: seq<Action>): State
    decreases |acts|
  {
    if acts == [] then s else Exec(Step(s, acts[0]), acts[1..])
  }

  /** The action goes through scheduler_yield. */
  predicate Yields(s: State, a: Action) {
    a.DoYield? || a.DoReturn? || (a.DoSleep? && s.current >= 0)
  }

  function YieldCount(s: State, acts: seq<Action>): nat
    decreases |acts|
  {
    if acts == [] then 0
    else (if Yields(s, acts[0]) then 1 else 0) + YieldCount(Step(s, acts[0]), acts[1..])
  }

  /** After this yield it is task `x` that runs. */
  predicate Resumes(s: State, a: Action, x: int) {
    Yields(s, a) && Step(s, a).current == x
  }

  /** `x` runs again after one of the first `n` yields of the run. */
  predicate ResumedWithin(s: State, acts: seq<Action>, x: int, n: int)
    decreases |acts|
  {
    && acts != []
    && n > 0
    && (Resumes(s, acts[0], x)
        || ResumedWithin(Step(s, acts[0]), acts[1..], x, if Yields(s, acts[0]) then n - 1 else n))
  }

  /** The action does not end `x`, make it the idle task, or restart the kernel. */
  predicate LeavesAlone(s: State, a: Action, x: int) {
    a != DoRemove(x) && a != DoSetIdle(x) && !a.DoRun? && (s.current == x ==> !a.DoSleep? && !a.DoReturn?)
  }

  /** Until `x` runs again, every action leaves it alone. */
  predicate Undisturbed(s: State, acts: seq<Action>, x: int)
    decreases |acts|
  {
    acts == [] ||
    (LeavesAlone(s, acts[0], x)
     && (Resumes(s, acts[0], x) || Undisturbed(Step(s, acts[0]), acts[1..], x)))
  }

  predicate Ready(s: State, x: int) {
    0 <= x < MAX_TASKS && s.tasks[x].inUse && s.tasks[x].wakeTick == 0 && x != s.idle
  }

  // ---- Bounded fairness ----

  /** The state in which a yielding action enters scheduler_yield. */
  function Entering(s: State, a: Action): State
    requires Yields(s, a)
  {
    match a
    case DoSleep(delta, _) => WithWake(s, s.current, (s.ticks + Delay(delta)) % 0x1_0000)
    case DoReturn(_) => Ended(s)
    case _ => s
  }

  /** What one action does to a task it leaves alone. */
  lemma StepKeeps(s: State, a: Action, x: int)
    requires 0 <= x < MAX_TASKS && s.tasks[x].inUse && x != s.idle && LeavesAlone(s, a, x)
    ensures var t := Step(s, a);
            && t.tasks[x].inUse && x != t.idle && t.tasks[x].wakeTick == s.tasks[x].wakeTick
            && t.ticks == (if Yields(s, a) then (s.ticks + 1) % 0x1_0000 else s.ticks)
            && (!Yields(s, a) ==> t.current == s.current)
  {
    hide Yield, Next;
    if Yields(s, a) {
      YieldMoves(Entering(s, a), a.flags);
      assert SameCall(Step(s, a).tasks[x], Entering(s, a).tasks[x]);
    }
  }

  /** A yield that does not run a due task brings the turn closer to it. */
  lemma YieldApproaches(s: State, a: Action, x: int)
    requires 0 <= x < MAX_TASKS && s.tasks[x].inUse && x != s.idle && LeavesAlone(s, a, x)
    requires Yields(s, a) && !Resumes(s, a, x)
    requires Due((s.ticks + 1) % 0x1_0000, s.tasks[x].wakeTick)
    ensures Distance(Step(s, a).current, x) < Distance(s.current, x)
  {
    hide Yield, Next;
    var e := Entering(s, a);
    YieldMoves(e, a.flags);
    NextSelects(Tick(e), s.current);
    assert Eligible(Tick(e), x);
  }

  /** A yield gives control to a due task, or back to its caller when nothing is due. */
  lemma ResumedWhenDue(s: State, a: Action, x: int)
    requires 0 <= x < MAX_TASKS && s.current != x && Resumes(s, a, x)
    ensures Due((s.ticks + 1) % 0x1_0000, s.tasks[x].wakeTick)
  {
    hide Yield, Next;
    var e := Entering(s, a);
    YieldMoves(e, a.flags);
    NextSelects(Tick(e), s.current);
    assert Eligible(Tick(e), x);
  }

  /** A ready task runs again within as many yields as its cyclic distance says, at most
      MAX_TASKS, whatever the other tasks do to themselves and to each other. */
  lemma {:induction false} BoundedFairness(s: State, acts: seq<Action>, x: int, n: int)
    requires Ready(s, x) && Undisturbed(s, acts, x)
    requires Distance(s.current, x) < n <= YieldCount(s, acts)
    ensures ResumedWithin(s, acts, x, n)
    decreases |acts|
  {
    hide Step;
    var a := acts[0];
    if !Resumes(s, a, x) {
      StepKeeps(s, a, x);
      if Yields(s, a) {
        YieldApproaches(s, a, x);
        BoundedFairness(Step(s, a), acts[1..], x, n - 1);
      } else {
        BoundedFairness(Step(s, a), acts[1..], x, n);
      }
    }
  }

  /** In the run, `b` runs again before `a` does, or neither does. */
  predicate RunsBefore(s: State, acts: seq<Action>, b: int, a: int)
    decreases |acts|
  {
    acts == [] || Resumes(s, acts[0], b)
    || (!Resumes(s, acts[0], a) && RunsBefore(Step(s, acts[0]), acts[1..], b, a))
  }

  lemma NearerTurn(s: State, a: Action, x: int, y: int)
    requires Ready(s, x) && Ready(s, y) && LeavesAlone(s, a, x) && LeavesAlone(s, a, y)
    requires Yields(s, a) && !Resumes(s, a, x) && Distance(s.current, x) < Distance(s.current, y)
    ensures !Resumes(s, a, y)
    ensures Distance(Step(s, a).current, x) < Distance(Step(s, a).current, y)
  {
    hide Yield, Next;
    var e := Entering(s, a);
    YieldMoves(e, a.flags);
    NextSelects(Tick(e), s.current);
    assert Eligible(Tick(e), x) && Eligible(Tick(e), y);
  }

  /** Ready tasks take turns: with both ready throughout, the one cyclically nearer runs first.
      Just after `a` ran it is the farthest of all, so between two runs of `a` every other ready
      task runs, and they do so in slot order. */
  lemma {:induction false} TurnsAreCyclic(s: State, acts: seq<Action>, b: int, a: int)
    requires Ready(s, a) && Ready(s, b) && Undisturbed(s, acts, a) && Undisturbed(s, acts, b)
    requires Distance(s.current, b) < Distance(s.current, a)
    ensures RunsBefore(s, acts, b, a)
    decreases |acts|
  {
    if acts != [] && !Resumes(s, acts[0], b) {
      StepKeeps(s, acts[0], a);
      StepKeeps(s, acts[0], b);
      if Yields(s, acts[0]) {
        NearerTurn(s, acts[0], b, a);
      }
      TurnsAreCyclic(Step(s, acts[0]), acts[1..], b, a);
    }
  }

  // ---- Sleeping ----

  lemma NextTick(now: int)
    ensures (now % 0x1_0000 + 1) % 0x1_0000 == (now + 1) % 0x1_0000
  {
  }

  /** On unbounded times that are less than half the tick range apart, the 16-bit test is
      plain comparison; the deadline value 0 is the exception, it always reads as due. */
  lemma DueComparesTimes(now: int, deadline: int)
    requires -0x8000 <= now - deadline < 0x8000
    ensures Due(now % 0x1_0000, deadline % 0x1_0000) <==> deadline % 0x1_0000 == 0 || deadline <= now
  {
    assert (now % 0x1_0000 - deadline % 0x1_0000) % 0x1_0000 == (now - deadline) % 0x1_0000;
  }

  /** The deadline is not cleared when a task wakes: if it only yields from then on, it stays
      selectable for exactly 0x8000 ticks and then drops out for as many, again and again. */
  lemma AwakeOnlyHalfTheTime(now: nat, deadline: nat)
    requires deadline <= now && deadline % 0x1_0000 != 0
    ensures Due(now % 0x1_0000, deadline % 0x1_0000) <==> (now - deadline) % 0x1_0000 < 0x8000
  {
    assert (now % 0x1_0000 - deadline % 0x1_0000) % 0x1_0000 == (now - deadline) % 0x1_0000;
  }

  /** A sleeper is not selectable at its own call exactly when the requested delay lies in the
      half range and the deadline is not a multiple of 2^16. */
  lemma SleepHoldsExactly(now: nat, delta: U16)
    ensures var d := Delay(delta);
            !Due((now + 1) % 0x1_0000, (now + d) % 0x1_0000)
            <==> 2 <= d <= 0x8001 && (now + d) % 0x1_0000 != 0
  {
    var d := Delay(delta);
    if d <= 0x8001 {
      DueComparesTimes(now + 1, now + d);
    } else {
      assert ((now + 1) % 0x1_0000 - (now + d) % 0x1_0000) % 0x1_0000 == (1 - d as int) + 0x1_0000;
    }
  }

  /** How many more yields a sleeper can need, at unbounded time `now`. */
  function Patience(s: State, now: int, deadline: int, x: int): int
    requires 0 <= x < MAX_TASKS
  {
    if now < deadline - 1 then deadline - 1 - now + MAX_TASKS else Distance(s.current, x) + 1
  }

  lemma {:induction false} SleeperRun(s: State, now: nat, deadline: nat, acts: seq<Action>, x: int, n: int)
    requires 0 <= x < MAX_TASKS && s.tasks[x].inUse && x != s.idle && x != s.current && Undisturbed(s, acts, x)
    requires s.ticks == now % 0x1_0000 && s.tasks[x].wakeTick == deadline % 0x1_0000 != 0
    requires deadline - 0x8000 <= now && now + Patience(s, now, deadline, x) <= deadline + MAX_TASKS - 1
    ensures n < deadline - now ==> !ResumedWithin(s, acts, x, n)
    ensures Patience(s, now, deadline, x) <= n <= YieldCount(s, acts) ==> ResumedWithin(s, acts, x, n)
    decreases |acts|
  {
    hide Step;
    if acts != [] {
      var a, t := acts[0], Step(s, acts[0]);
      NextTick(now);
      DueComparesTimes(now + 1, deadline);
      if Resumes(s, a, x) {
        ResumedWhenDue(s, a, x);
      } else {
        StepKeeps(s, a, x);
        if Yields(s, a) {
          if deadline <= now + 1 {
            YieldApproaches(s, a, x);
          }
          SleeperRun(t, now + 1, deadline, acts[1..], x, n - 1);
        } else {
          SleeperRun(t, now, deadline, acts[1..], x, n);
        }
      }
    }
  }

  /** Some task other than `x` could run at the tick of the sleep call. */
  predicate OtherDue(s: State, x: int) {
    exists i | 0 <= i < MAX_TASKS && i != x :: Eligible(Tick(s), i)
  }

  lemma WakeTickHolds(s: State, now: nat, delta: U16)
    requires s.ticks == now % 0x1_0000 && 1 <= delta <= 0x8001 && (now + delta) % 0x1_0000 != 0
    ensures (s.ticks + delta) % 0x1_0000 == (now + delta) % 0x1_0000
    ensures Due(Tick(s).ticks, (s.ticks + delta) % 0x1_0000) <==> delta == 1
  {
    TickLater(now, delta);
    TickLater(now, 1);
    DueComparesTimes(now + 1, now + delta);
  }

  lemma TickLater(now: nat, delta: nat)
    ensures (now % 0x1_0000 + delta) % 0x1_0000 == (now + delta) % 0x1_0000
  {
    var q := now / 0x1_0000;
    assert now + delta == q * 0x1_0000 + (now % 0x1_0000 + delta);
  }

  /** Only the idle task, other than `x`, could run then. */
  predicate OnlyIdleDue(s: State, x: int) {
    forall i | 0 <= i < MAX_TASKS && i != x && Eligible(Tick(s), i) :: i == s.idle
  }

  /** A proper sleep comes straight back to its caller exactly when nothing else can run, or when
      the delay is one tick, so that the caller is itself due again at once, and the caller has
      only the idle task to compete with. */
  lemma SleepFallsThrough(s: State, now: nat, delta: U16, flags: Byte)
    requires 0 <= s.current && s.tasks[s.current].inUse && s.ticks == now % 0x1_0000
    requires 1 <= delta <= 0x8001 && (now + delta) % 0x1_0000 != 0
    ensures Sleep(s, delta, flags).current == s.current
            <==> !OtherDue(s, s.current) || (delta == 1 && s.current != s.idle && OnlyIdleDue(s, s.current))
  {
    hide Yield, Next, Scan, Due;
    WakeTickHolds(s, now, delta);
    var e := WithWake(s, s.current, (s.ticks + delta) % 0x1_0000);
    YieldMoves(e, flags);
    NextSelects(Tick(e), s.current);
    assert forall i | 0 <= i < MAX_TASKS && i != s.current :: Eligible(Tick(e), i) <==> Eligible(Tick(s), i);
    var x, r := s.current, Next(Tick(e), s.current);
    assert Eligible(Tick(e), x) <==> delta == 1;
    assert forall i | 0 <= i < MAX_TASKS && i != x :: Distance(x, i) < Distance(x, x);
    if OtherDue(s, x) {
      var i :| 0 <= i < MAX_TASKS && i != x && Eligible(Tick(s), i);
      assert Eligible(Tick(e), i);
      if !OnlyIdleDue(s, x) {
        var k :| 0 <= k < MAX_TASKS && k != x && Eligible(Tick(s), k) && k != s.idle;
        assert Eligible(Tick(e), k);
      }
    }
  }

  /** scheduler_sleep(delta), called at unbounded time `now` while another task can run: the
      caller does not run again before `now + delta`, and runs again within MAX_TASKS yields of
      it.  The call itself is the yield at `now + 1`; `n` counts the yields after it. */
  lemma SleepResumesOnTime(s: State, now: nat, delta: U16, flags: Byte, acts: seq<Action>, x: int, n: int)
    requires x == s.current >= 0 && s.tasks[x].inUse && x != s.idle && s.ticks == now % 0x1_0000
    requires 1 <= delta <= 0x8001 && (now + delta) % 0x1_0000 != 0 && OtherDue(s, x)
    ensures var t := Sleep(s, delta, flags);
            && (t.current == x ==> delta == 1)
            && (t.current != x && Undisturbed(t, acts, x) ==>
                  && (now + 1 + n < now + delta ==> !ResumedWithin(t, acts, x, n))
                  && (delta - 1 + MAX_TASKS - 1 <= n <= YieldCount(t, acts) ==> ResumedWithin(t, acts, x, n)))
  {
    hide Yield, Next, Scan, Due, Undisturbed, ResumedWithin, YieldCount;
    SleepFallsThrough(s, now, delta, flags);
    var t := Sleep(s, delta, flags);
    var e := WithWake(s, x, (s.ticks + delta) % 0x1_0000);
    YieldMoves(e, flags);
    NextTick(now);
    WakeTickHolds(s, now, delta);
    assert SameCall(t.tasks[x], e.tasks[x]);
    if t.current != x && Undisturbed(t, acts, x) {
      SleeperRun(t, now + 1, now + delta, acts, x, n);
    }
  }

  // ---- What a call does to the task it names ----

  /** scheduler_sleep sets the caller's deadline, a delay of 0 counting as 1, and yields; outside any
      task it does nothing. */
  lemma SleepSetsDeadline(s: State, delta: U16, flags: Byte)
    ensures s.current < 0 ==> Sleep(s, delta, flags) == s
    ensures s.current >= 0 ==>
              var t := Sleep(s, delta, flags);
              && t.tasks[s.current].wakeTick == Wrap16(s.ticks + (if delta == 0 then 1 else delta))
              && t.ticks == Wrap16(s.ticks + 1)
              && forall i | 0 <= i < MAX_TASKS && i != s.current :: t.tasks[i].wakeTick == s.tasks[i].wakeTick
  {
    hide Sleep, Yield, WithWake, Wrap16;
    SleepYields(s, delta, flags);
    if s.current >= 0 {
      WokenLater(s, Wrap16(s.ticks + (if delta == 0 then 1 else delta)), flags);
    }
  }

  lemma SleepYields(s: State, delta: U16, flags: Byte)
    ensures Sleep(s, delta, flags)
            == if s.current < 0 then s
               else Yield(WithWake(s, s.current, Wrap16(s.ticks + (if delta == 0 then 1 else delta))), flags)
  {
    hide Yield, WithWake;
  }

  lemma WokenLater(s: State, w: U16, flags: Byte)
    requires s.current >= 0
    ensures var t := Yield(WithWake(s, s.current, w), flags);
            && t.tasks[s.current].wakeTick == w && t.ticks == Wrap16(s.ticks + 1)
            && forall i | 0 <= i < MAX_TASKS && i != s.current :: t.tasks[i].wakeTick == s.tasks[i].wakeTick
  {
    var e := WithWake(s, s.current, w);
    YieldMoves(e, flags);
    hide Yield, Next;
    forall i | 0 <= i < MAX_TASKS ensures Yield(e, flags).tasks[i].wakeTick == e.tasks[i].wakeTick {
      assert SameCall(Yield(e, flags).tasks[i], e.tasks[i]);
    }
  }

  /** The run never fills slot x again. */
  predicate NotRefilled(s: State, acts: seq<Action>, x: int)
    decreases |acts|
  {
    acts == [] || ((acts[0].DoAdd? ==> FreeSlot(s.tasks, 0) != x) && NotRefilled(Step(s, acts[0]), acts[1..], x))
  }

  /** From now on task x never runs. */
  predicate NeverRuns(s: State, acts: seq<Action>, x: int)
    decreases |acts|
  {
    s.current != x && (acts == [] || NeverRuns(Step(s, acts[0]), acts[1..], x))
  }

  lemma FreeStaysFree(s: State, a: Action, x: int)
    requires 0 <= x < MAX_TASKS && !s.tasks[x].inUse && s.current != x && (a.DoAdd? ==> FreeSlot(s.tasks, 0) != x)
    ensures !Step(s, a).tasks[x].inUse && Step(s, a).current != x
  {
    hide Yield, Next, Switch;
    if Yields(s, a) {
      var e := Entering(s, a);
      YieldMoves(e, a.flags);
      NextSelects(Tick(e), s.current);
      assert SameCall(Step(s, a).tasks[x], e.tasks[x]);
    } else if a.DoRun? {
      RunMoves(s, a.flags);
      NextSelects(s, -1);
    }
  }

  lemma RunMoves(s: State, flags: Byte)
    ensures var r, first := Run(s, flags), Next(s, -1);
            && r.current == (if first < 0 then s.current else first)
            && forall i | 0 <= i < MAX_TASKS :: SameCall(r.tasks[i], s.tasks[i])
  {
    hide Next, Switch;
    var first := Next(s, -1);
    if first >= 0 {
      SwitchKeepsCalls(s.(current := first), SCHED_CTX, first, flags);
    }
  }

  /** A task whose slot is free never runs until the slot is filled again. */
  lemma {:induction false} FreedNeverRuns(s: State, acts: seq<Action>, x: int)
    requires 0 <= x < MAX_TASKS && !s.tasks[x].inUse && s.current != x && NotRefilled(s, acts, x)
    ensures NeverRuns(s, acts, x)
    decreases |acts|
  {
    hide Step;
    if acts != [] {
      FreeStaysFree(s, acts[0], x);
      FreedNeverRuns(Step(s, acts[0]), acts[1..], x);
    }
  }

  /** A task that returns gives up its slot, and the yield leaves it unless nothing else can run. */
  lemma ReturnFrees(s: State, flags: Byte)
    requires s.current >= 0
    ensures var t := Step(s, DoReturn(flags));
            && SameCall(t.tasks[s.current], s.tasks[s.current].(inUse := false))
            && (forall i | 0 <= i <= MAX_TASKS && i != s.current :: SameCall(t.tasks[i], s.tasks[i]))
            && (t.current == s.current <==>
                forall i | 0 <= i < MAX_TASKS && i != s.current :: !Eligible(Tick(s), i))
  {
    var e := Ended(s);
    YieldMoves(e, flags);
    NextSelects(Tick(e), s.current);
    hide Yield, Next;
    assert forall i | 0 <= i < MAX_TASKS && i != s.current :: Eligible(Tick(e), i) <==> Eligible(Tick(s), i);
    assert SameCall(Step(s, DoReturn(flags)).tasks[s.current], e.tasks[s.current]);
  }

  /** So a task that has returned runs no more, unless the yield had nothing else to resume. */
  lemma EndedNeverRuns(s: State, flags: Byte, acts: seq<Action>, x: int)
    requires 0 <= x == s.current
    requires exists i | 0 <= i < MAX_TASKS && i != x :: Eligible(Tick(s), i)
    ensures var t := Step(s, DoReturn(flags)); NotRefilled(t, acts, x) ==> NeverRuns(t, acts, x)
  {
    hide Step, NotRefilled, NeverRuns;
    ReturnFrees(s, flags);
    var t := Step(s, DoReturn(flags));
    if NotRefilled(t, acts, x) {
      FreedNeverRuns(t, acts, x);
    }
  }

  /** A slot that another task removes is cleared, and its task runs no more. */
  lemma RemovedNeverRuns(s: State, acts: seq<Action>, x: int)
    requires 0 <= x < MAX_TASKS
    ensures var t := Step(s, DoRemove(x));
            && !t.tasks[x].inUse && t.tasks[x].fn == 0 && t.tasks[x].arg == 0 && !t.tasks[x].started
            && (s.current != x && NotRefilled(t, acts, x) ==> NeverRuns(t, acts, x))
  {
    hide NotRefilled, NeverRuns;
    var t := Step(s, DoRemove(x));
    if s.current != x && NotRefilled(t, acts, x) {
      FreedNeverRuns(t, acts, x);
    }
  }

  /** The task named as idle gets the next turn exactly when it can run and no other can. */
  lemma IdleRunsLast(s: State, id: int, flags: Byte)
    requires 0 <= id < MAX_TASKS && s.current != id
    ensures Step(Step(s, DoSetIdle(id)), DoYield(flags)).current == id
            <==> Eligible(Tick(s), id) && forall i | 0 <= i < MAX_TASKS && i != id :: !Eligible(Tick(s), i)
  {
    var t := Step(s, DoSetIdle(id));
    YieldMoves(t, flags);
    NextSelects(Tick(t), t.current);
    hide Yield, Next;
    assert forall i | 0 <= i < MAX_TASKS :: Eligible(Tick(t), i) <==> Eligible(Tick(s), i);
  }

  // ---- What a new task is started with ----

  /** When `x` is first dispatched, if it is, it still has this function and argument. */
  predicate StartsWith(s: State, acts: seq<Action>, x: int, fn: int, arg: int)
    requires 0 <= x < MAX_TASKS
    decreases |acts|
  {
    acts == [] ||
    var t := Step(s, acts[0]);
    if t.tasks[x].started then t.current == x && t.tasks[x].fn == fn && t.tasks[x].arg == arg
    else StartsWith(t, acts[1..], x, fn, arg)
  }

  /** The run neither removes task x nor has it return. */
  predicate KeepsTask(s: State, acts: seq<Action>, x: int)
    decreases |acts|
  {
    acts == []
    || (acts[0] != DoRemove(x) && !(acts[0].DoReturn? && s.current == x) && KeepsTask(Step(s, acts[0]), acts[1..], x))
  }

  lemma UnstartedKept(s: State, a: Action, x: int)
    requires 0 <= x < MAX_TASKS && s.tasks[x].inUse && !s.tasks[x].started
    requires a != DoRemove(x) && !(a.DoReturn? && s.current == x)
    ensures var t := Step(s, a);
            && t.tasks[x].fn == s.tasks[x].fn && t.tasks[x].arg == s.tasks[x].arg && t.tasks[x].inUse
            && (t.tasks[x].started ==> t.current == x)
  {
    hide Next, Overlay;
    if Yields(s, a) {
      var e := Entering(s, a);
      YieldMoves(e, a.flags);
      assert SameCall(Step(s, a).tasks[x], e.tasks[x]);
    } else if a.DoRun? {
      RunMoves(s, a.flags);
      assert SameCall(Step(s, a).tasks[x], s.tasks[x]);
    }
  }

  lemma {:induction false} UnstartedStarts(s: State, acts: seq<Action>, x: int)
    requires 0 <= x < MAX_TASKS && s.tasks[x].inUse && !s.tasks[x].started && KeepsTask(s, acts, x)
    ensures StartsWith(s, acts, x, s.tasks[x].fn, s.tasks[x].arg)
    decreases |acts|
  {
    hide Step;
    if acts != [] {
      UnstartedKept(s, acts[0], x);
      if !Step(s, acts[0]).tasks[x].started {
        UnstartedStarts(Step(s, acts[0]), acts[1..], x);
      }
    }
  }

  /** A task is added to the lowest free slot, with its function and argument, not started, with an
      empty stack and no deadline; over every run in which its slot is not given up, it is started with
      that function and that argument. */
  lemma AddedTaskStarts(s: State, fn: int, arg: int, once: bool, acts: seq<Action>)
    ensures (forall i | 0 <= i < MAX_TASKS :: s.tasks[i].inUse) ==> Add(s, fn, arg, once) == s
    ensures forall x | 0 <= x < MAX_TASKS && !s.tasks[x].inUse && forall j | 0 <= j < x :: s.tasks[j].inUse ::
              var t := Add(s, fn, arg, once);
              && t == s.(tasks := s.tasks[x := t.tasks[x]])
              && t.tasks[x].fn == fn && t.tasks[x].arg == arg && t.tasks[x].oneShot == once
              && t.tasks[x].inUse && !t.tasks[x].started && t.tasks[x].savedSp == 0xFF && t.tasks[x].wakeTick == 0
              && (KeepsTask(t, acts, x) ==> StartsWith(t, acts, x, fn, arg))
  {
    var x, t := FreeSlot(s.tasks, 0), Add(s, fn, arg, once);
    if x >= 0 && KeepsTask(t, acts, x) {
      UnstartedStarts(t, acts, x);
    }
  }

  // ---- The counters ----

  /** The yield hands the processor to a task other than the idle one: some such task is eligible. */
  predicate HandsToWorker(s: State, a: Action) {
    Yields(s, a) && exists i | 0 <= i < MAX_TASKS && i != s.idle :: Eligible(Tick(Entering(s, a)), i)
  }

  function WorkerCount(s: State, acts: seq<Action>): nat
    decreases |acts|
  {
    if acts == [] then 0
    else (if HandsToWorker(s, acts[0]) then 1 else 0) + WorkerCount(Step(s, acts[0]), acts[1..])
  }

  lemma StepCounts(s: State, a: Action)
    ensures var t := Step(s, a);
            && t.ticks == (if Yields(s, a) then Wrap16(s.ticks + 1) else s.ticks)
            && t.cpuTotal == (if Yields(s, a) then Wrap32(s.cpuTotal + 1) else s.cpuTotal)
            && t.cpuActive == (if HandsToWorker(s, a) then Wrap32(s.cpuActive + 1) else s.cpuActive)
  {
    hide Next, Overlay, Due;
    if Yields(s, a) {
      var e := Tick(Entering(s, a));
      NextSelects(e, s.current);
      var r := Next(e, s.current);
      if r >= 0 && r != s.idle {
        assert Eligible(e, r);
      }
    }
  }

  /** Over every run the total counts the yields, and the active counter those that hand the
      processor to a task other than the idle one, both modulo 2^32. */
  lemma {:induction false} CountersCount(s: State, acts: seq<Action>)
    ensures Exec(s, acts).cpuTotal == Wrap32(s.cpuTotal + YieldCount(s, acts))
    ensures Exec(s, acts).cpuActive == Wrap32(s.cpuActive + WorkerCount(s, acts))
    ensures Exec(s, acts).ticks == Wrap16(s.ticks + YieldCount(s, acts))
    decreases |acts|
  {
    hide Step, Yields, HandsToWorker, Wrap16, Wrap32;
    if acts == [] {
      NothingCounted(s);
    } else {
      var t, rest := Step(s, acts[0]), acts[1..];
      StepCounts(s, acts[0]);
      CountersCount(t, rest);
      WrapSum(s.cpuTotal + 1, YieldCount(t, rest));
      WrapSum(s.cpuActive + 1, WorkerCount(t, rest));
      TickSum(s.ticks + 1, YieldCount(t, rest));
    }
  }

  lemma NothingCounted(s: State)
    ensures s.cpuTotal == Wrap32(s.cpuTotal + 0) && s.cpuActive == Wrap32(s.cpuActive + 0)
    ensures s.ticks == Wrap16(s.ticks + 0)
  {
  }

  lemma TickSum(x: nat, y: nat)
    ensures Wrap16(Wrap16(x) + y) == Wrap16(x + y)
  {
    TickLater(x, y);
  }
}
