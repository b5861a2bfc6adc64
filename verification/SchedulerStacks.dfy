/** The one hardware stack page, shared by copying, behaves as if every task had its own. */
module SchedulerStacks {
  import opened Words
  import opened SchedulerState
  import opened SchedulerRuns

  /** The ideal machine: the bytes of the running task's stack, and one private stack for every
      suspended context.  Nothing but its owner ever touches a private stack. */
  datatype Ideal = Ideal(running: seq<Byte>, suspended: map<int, seq<Byte>>)

  /** The slot that a yielding action gives control to, -1 when it returns to its caller. */
  function Chosen(s: State, a: Action): Slot
    requires Yields(s, a) || a.DoRun?
  {
    if a.DoRun? then Next(s, -1) else Next(Tick(Entering(s, a)), s.current)
  }

  /** The state in which the next task is selected, and the slot the old context is saved in. */
  function AtSelection(s: State, a: Action): State
    requires Yields(s, a) || a.DoRun?
  {
    if a.DoRun? then s else Tick(Entering(s, a))
  }

  function Leaving(s: State, a: Action): (prev: int)
    ensures 0 <= prev <= MAX_TASKS
  {
    if a.DoRun? then SCHED_CTX else Owner(s.current)
  }

  function AtSwitch(s: State, a: Action): State
    requires Yields(s, a) || a.DoRun?
  {
    var e := AtSelection(s, a);
    if a.DoRun? then e.(current := Chosen(s, a)) else Handed(e, Chosen(s, a))
  }

  /** What the two starting points have in common. */
  lemma StepIsSwitch(s: State, a: Action)
    requires (Yields(s, a) || a.DoRun?) && Chosen(s, a) >= 0
    ensures Step(s, a) == Switch(AtSwitch(s, a), Leaving(s, a), Chosen(s, a), a.flags)
    ensures AtSelection(s, a).current == s.current
    ensures forall i | 0 <= i < MAX_TASKS ::
              AtSelection(s, a).tasks[i].started == s.tasks[i].started
              && AtSelection(s, a).tasks[i].stack == s.tasks[i].stack
              && AtSelection(s, a).tasks[i].savedSp == s.tasks[i].savedSp
              && AtSelection(s, a).tasks[i].flags == s.tasks[i].flags
  {
    hide Switch, Next;
  }

  lemma StepStays(s: State, a: Action)
    requires (Yields(s, a) || a.DoRun?) && Chosen(s, a) < 0
    ensures Step(s, a) == AtSelection(s, a)
  {
    hide Switch, Next;
  }

  lemma ChosenInUse(s: State, a: Action)
    requires (Yields(s, a) || a.DoRun?) && Chosen(s, a) >= 0
    ensures AtSelection(s, a).tasks[Chosen(s, a)].inUse
  {
    NextSelects(AtSelection(s, a), if a.DoRun? then -1 else s.current);
  }

  function Dispatch(m: Ideal, prev: int, next: int, unstarted: bool): Ideal {
    var suspended := m.suspended[prev := m.running];
    Ideal(if unstarted || next !in suspended then [] else suspended[next], suspended)
  }

  function IdealStep(s: State, m: Ideal, a: Action): Ideal {
    if Yields(s, a) || a.DoRun? then
      var next := Chosen(s, a);
      if next < 0 then m
      else Dispatch(m, Leaving(s, a), next, !s.tasks[next].started)
    else
      match a
      case Work(page, sp) => m.(running := Above(page, sp))
      case DoAdd(_, _, _) => m.(suspended := m.suspended - {FreeSlot(s.tasks, 0) as int})
      case _ => m
  }

  function IdealExec(s: State, m: Ideal, acts: seq<Action>): Ideal
    decreases |acts|
  {
    if acts == [] then m else IdealExec(Step(s, acts[0]), IdealStep(s, m, acts[0]), acts[1..])
  }

  /** How main() and the tasks use the kernel: it is started once, before any task runs, and no
      task that has given up its own slot refills it before it yields. */
  predicate WellUsed(s: State, a: Action) {
    (a.DoRun? ==> s.current == -1)
    && (a.DoAdd? && s.current >= 0 ==> FreeSlot(s.tasks, 0) != s.current)
  }

  predicate RunWellUsed(s: State, acts: seq<Action>)
    decreases |acts|
  {
    acts == [] || (WellUsed(s, acts[0]) && RunWellUsed(Step(s, acts[0]), acts[1..]))
  }

  predicate SlotMatches(t: Task, m: Ideal, i: int) {
    if t.started then i in m.suspended && m.suspended[i] == Above(t.stack, t.savedSp)
    else t.savedSp == EMPTY_SP
  }

  predicate Matches(s: State, m: Ideal) {
    && m.running == Above(s.page, s.sp)
    && (s.current >= 0 && s.tasks[s.current].inUse ==> s.tasks[s.current].started)
    && forall i | 0 <= i < MAX_TASKS && i != s.current && s.tasks[i].inUse :: SlotMatches(s.tasks[i], m, i)
  }

  /** One switch: the bytes of `next` come up unchanged, and every other slot keeps its own. */
  lemma SwitchIsPrivate(s: State, cur: int, next: int, flags: Byte)
    requires 0 <= cur <= MAX_TASKS && 0 <= next < MAX_TASKS
    ensures var r := Switch(s, cur, next, flags);
            && r.tasks[next].started && r.tasks[cur].flags == flags
            && r.page[r.sp] == (if cur == next then flags else s.tasks[next].flags)
            && (cur != next ==>
                  && r.sp == s.tasks[next].savedSp
                  && Above(r.page, r.sp) == Above(s.tasks[next].stack, r.sp)
                  && Above(r.tasks[cur].stack, r.tasks[cur].savedSp) == Above(s.page, s.sp)
                  && r.tasks[cur].started == s.tasks[cur].started && r.tasks[cur].savedSp == s.sp)
            && (cur == next ==> r.sp == s.sp && Above(r.page, r.sp) == Above(s.page, s.sp))
            && forall i | 0 <= i <= MAX_TASKS && i != cur && i != next :: r.tasks[i] == s.tasks[i]
  {
    var page := s.page[s.sp := flags];
    assert Above(page, s.sp) == Above(s.page, s.sp);
    var stack := Overlay(s.tasks[cur].stack, s.sp, page);
    var n := s.tasks[cur := s.tasks[cur].(savedSp := s.sp, flags := flags, stack := stack)][next];
    var up := Overlay(page, n.savedSp, n.stack);
    assert Above(up[n.savedSp := n.flags], n.savedSp) == Above(up, n.savedSp);
  }

  lemma DispatchMatches(s: State, m: Ideal, cur: int, next: int, flags: Byte, t: State)
    requires Matches(t, m) && t.current == (if cur == SCHED_CTX then -1 else cur) && 0 <= cur <= MAX_TASKS
    requires 0 <= next < MAX_TASKS && t.tasks[next].inUse
    requires s.tasks == t.tasks && s.page == t.page && s.sp == t.sp && s.current == next
    ensures Matches(Switch(s, cur, next, flags), Dispatch(m, cur, next, !t.tasks[next].started))
  {
    SwitchIsPrivate(s, cur, next, flags);
    SwitchKeepsCalls(s, cur, next, flags);
    hide Switch, Above, Overlay;
    var r, k := Switch(s, cur, next, flags), Dispatch(m, cur, next, !t.tasks[next].started);
    if cur != next {
      assert SlotMatches(t.tasks[next], m, next);
    }
    forall i | 0 <= i < MAX_TASKS && i != next && r.tasks[i].inUse
      ensures SlotMatches(r.tasks[i], k, i)
    {
      assert SameCall(r.tasks[i], s.tasks[i]);
      if i != cur {
        assert SlotMatches(t.tasks[i], m, i);
      }
    }
  }

  lemma StepMatches(s: State, m: Ideal, a: Action)
    requires Matches(s, m) && WellUsed(s, a)
    ensures Matches(Step(s, a), IdealStep(s, m, a))
  {
    if Yields(s, a) || a.DoRun? {
      YieldMatches(s, m, a);
    } else if a.DoAdd? {
      var i := FreeSlot(s.tasks, 0);
      forall j | 0 <= j < MAX_TASKS && j != s.current && Step(s, a).tasks[j].inUse
        ensures SlotMatches(Step(s, a).tasks[j], IdealStep(s, m, a), j)
      {
        if j != i {
          assert SlotMatches(s.tasks[j], m, j);
        }
      }
    } else {
      forall j | 0 <= j < MAX_TASKS && j != s.current && Step(s, a).tasks[j].inUse
        ensures SlotMatches(Step(s, a).tasks[j], IdealStep(s, m, a), j)
      {
        assert SlotMatches(s.tasks[j], m, j);
      }
    }
  }

  lemma YieldMatches(s: State, m: Ideal, a: Action)
    requires Matches(s, m) && WellUsed(s, a) && (Yields(s, a) || a.DoRun?)
    ensures Matches(Step(s, a), IdealStep(s, m, a))
  {
    EnteringMatches(s, m, a);
    hide Matches, Chosen, Dispatch, Step;
    if Chosen(s, a) >= 0 {
      ChosenInUse(s, a);
      StepIsSwitch(s, a);
      DispatchMatches(AtSwitch(s, a), m, Leaving(s, a), Chosen(s, a), a.flags, AtSelection(s, a));
    } else {
      StepStays(s, a);
    }
  }

  lemma EnteringMatches(s: State, m: Ideal, a: Action)
    requires Matches(s, m) && WellUsed(s, a) && (Yields(s, a) || a.DoRun?)
    ensures Matches(AtSelection(s, a), m)
  {
    var e := AtSelection(s, a);
    forall i | 0 <= i < MAX_TASKS && i != e.current && e.tasks[i].inUse
      ensures SlotMatches(e.tasks[i], m, i)
    {
      assert SlotMatches(s.tasks[i], m, i);
    }
  }

  /** Over every run, whatever is added, removed, reused or ended, the running task sees exactly
      the bytes of its private stack; a new task starts with none, so with SP at 0xFF. */
  lemma {:induction false} StacksArePrivate(s: State, m: Ideal, acts: seq<Action>)
    requires Matches(s, m) && RunWellUsed(s, acts)
    ensures Matches(Exec(s, acts), IdealExec(s, m, acts))
    decreases |acts|
  {
    if acts != [] {
      StepMatches(s, m, acts[0]);
      StacksArePrivate(Step(s, acts[0]), IdealStep(s, m, acts[0]), acts[1..]);
    }
  }

  /** The state left by scheduler_init satisfies the correspondence. */
  lemma BootMatches(s: State)
    requires s.current == -1 && forall i | 0 <= i < MAX_TASKS :: !s.tasks[i].inUse
    ensures Matches(s, Ideal(Above(s.page, s.sp), map[]))
  {
  }

  // ---- What a slot that is left keeps ----

  /** When `x` next runs, if it does, SP is `sp`, it sees `bytes` above it, and the processor has
      pulled `flags` from the byte at SP. */
  predicate ResumesSeeing(s: State, acts: seq<Action>, x: int, sp: Byte, bytes: seq<Byte>, flags: Byte)
    decreases |acts|
  {
    acts == [] ||
    var t := Step(s, acts[0]);
    if t.current == x then t.sp == sp && Above(t.page, t.sp) == bytes && t.page[t.sp] == flags
    else ResumesSeeing(t, acts[1..], x, sp, bytes, flags)
  }

  predicate NeverRemoved(acts: seq<Action>, x: int) {
    forall i | 0 <= i < |acts| :: acts[i] != DoRemove(x)
  }

  /** One action, seen from a slot that waits: its turn comes with its own SP and bytes, or it keeps
      them and waits on. */
  predicate WaitsOrRuns(s: State, t: State, x: int)
    requires 0 <= x < MAX_TASKS
  {
    if t.current == x then
      t.sp == s.tasks[x].savedSp && Above(t.page, t.sp) == Above(s.tasks[x].stack, t.sp)
      && t.page[t.sp] == s.tasks[x].flags
    else t.tasks[x].inUse && t.tasks[x].savedSp == s.tasks[x].savedSp && t.tasks[x].stack == s.tasks[x].stack
         && t.tasks[x].started == s.tasks[x].started && t.tasks[x].flags == s.tasks[x].flags
  }

  lemma SwitchWaitsOrRuns(p: State, prev: int, next: int, flags: Byte, x: int)
    requires 0 <= prev <= MAX_TASKS && 0 <= next < MAX_TASKS && p.current == next
    requires 0 <= x < MAX_TASKS && x != prev && p.tasks[x].inUse
    ensures WaitsOrRuns(p, Switch(p, prev, next, flags), x)
  {
    SwitchIsPrivate(p, prev, next, flags);
    SwitchKeepsCalls(p, prev, next, flags);
    hide Switch;
    assert SameCall(Switch(p, prev, next, flags).tasks[x], p.tasks[x]);
  }

  lemma SlotWaits(s: State, a: Action, x: int)
    requires 0 <= x < MAX_TASKS && s.tasks[x].inUse && a != DoRemove(x)
    requires x != s.current || (a.DoRun? && Chosen(s, a) >= 0)
    ensures WaitsOrRuns(s, Step(s, a), x)
  {
    if Yields(s, a) || a.DoRun? {
      hide Step, Chosen, Switch, WaitsOrRuns;
      if Chosen(s, a) >= 0 {
        StepIsSwitch(s, a);
        SwitchWaitsOrRuns(AtSwitch(s, a), Leaving(s, a), Chosen(s, a), a.flags, x);
        WaitsFrom(s, a, Step(s, a), x);
      } else {
        StepStays(s, a);
        WaitsOn(s, a, x);
      }
    }
  }

  lemma WaitsFrom(s: State, a: Action, t: State, x: int)
    requires (Yields(s, a) || a.DoRun?) && Chosen(s, a) >= 0 && 0 <= x < MAX_TASKS
    requires WaitsOrRuns(AtSwitch(s, a), t, x)
    ensures WaitsOrRuns(s, t, x)
  {
    hide Chosen, Step;
    StepIsSwitch(s, a);
  }

  lemma WaitsOn(s: State, a: Action, x: int)
    requires (Yields(s, a) || a.DoRun?) && 0 <= x < MAX_TASKS && x != s.current && s.tasks[x].inUse
    ensures WaitsOrRuns(s, AtSelection(s, a), x)
  {
  }

  /** Over every run, however the kernel is used: the slot's next activation has its saved SP, the
      bytes saved above it and its saved flags. */
  lemma {:induction false} WaitingSlotKept(s: State, acts: seq<Action>, x: int)
    requires 0 <= x < MAX_TASKS && x != s.current && s.tasks[x].inUse && NeverRemoved(acts, x)
    ensures ResumesSeeing(s, acts, x, s.tasks[x].savedSp, Above(s.tasks[x].stack, s.tasks[x].savedSp),
                          s.tasks[x].flags)
    decreases |acts|
  {
    hide Step;
    if acts != [] {
      SlotWaits(s, acts[0], x);
      if Step(s, acts[0]).current != x {
        assert NeverRemoved(acts[1..], x);
        WaitingSlotKept(Step(s, acts[0]), acts[1..], x);
      }
    }
  }

  /** A task that yields or sleeps finds, when it runs again, the same SP, exactly the bytes it had
      above it when it gave up control, and its flags, whatever the others did with the page and the
      kernel. */
  lemma ResumeRestoresStack(s: State, a: Action, acts: seq<Action>, x: int)
    requires x == s.current >= 0 && s.tasks[x].inUse && (a.DoYield? || a.DoSleep?) && NeverRemoved(acts, x)
    ensures var t := Step(s, a);
            if t.current == x then t.sp == s.sp && Above(t.page, t.sp) == Above(s.page, s.sp)
            else ResumesSeeing(t, acts, x, s.sp, Above(s.page, s.sp), a.flags)
  {
    LeavesOwnStack(s, a);
    hide Step;
    if Step(s, a).current != x {
      WaitingSlotKept(Step(s, a), acts, x);
    }
  }

  /** The switch away saves SP and the bytes above it in the task's slot. */
  lemma LeavesOwnStack(s: State, a: Action)
    requires s.current >= 0 && s.tasks[s.current].inUse && (a.DoYield? || a.DoSleep?)
    ensures var t, x := Step(s, a), s.current;
            if t.current == x then t.sp == s.sp && Above(t.page, t.sp) == Above(s.page, s.sp)
            else t.tasks[x].inUse && t.tasks[x].savedSp == s.sp && Above(t.tasks[x].stack, s.sp) == Above(s.page, s.sp)
                 && t.tasks[x].started == s.tasks[x].started && t.tasks[x].flags == a.flags
  {
    var x := s.current;
    hide Next, Switch;
    if Chosen(s, a) >= 0 {
      StepIsSwitch(s, a);
      SwitchIsPrivate(AtSwitch(s, a), x, Chosen(s, a), a.flags);
      SwitchKeepsCalls(AtSwitch(s, a), x, Chosen(s, a), a.flags);
      assert SameCall(Step(s, a).tasks[x], AtSwitch(s, a).tasks[x]);
    } else {
      StepStays(s, a);
    }
  }

  // ---- The cases that well-used runs exclude ----

  /** Adding a task puts one that is still to be started into the slot of the running task exactly
      when that slot is the lowest free one. */
  lemma OwnSlotRefilled(s: State, fn: int, arg: int, once: bool)
    requires s.current >= 0 && (s.tasks[s.current].inUse ==> s.tasks[s.current].started)
    ensures var u := Add(s, fn, arg, once);
            && u.current == s.current && u.sp == s.sp && u.page == s.page
            && (u.tasks[s.current].inUse && !u.tasks[s.current].started <==> FreeSlot(s.tasks, 0) == s.current)
  {
  }

  /** A slot refilled by the task that still runs in it is left by a yield or a sleep, at any later
      time: the new task is still to be started, and it starts, over every run, not clean but with
      the SP and the stack bytes that the old one had when it left. */
  lemma RefilledOwnSlotStartsStale(s: State, a: Action, acts: seq<Action>, x: int)
    requires x == s.current >= 0 && s.tasks[x].inUse && !s.tasks[x].started
    requires (a.DoYield? || a.DoSleep?) && NeverRemoved(acts, x)
    ensures var t := Step(s, a);
            t.current != x ==>
              t.tasks[x].inUse && !t.tasks[x].started && ResumesSeeing(t, acts, x, s.sp, Above(s.page, s.sp), a.flags)
  {
    LeavesOwnStack(s, a);
    ResumeRestoresStack(s, a, acts, x);
  }

  /** A task that calls scheduler_run: its stack goes to the main context, and its own slot keeps
      what it had saved before, so that is what the task resumes with. */
  lemma RunFromTaskResumesStale(s: State, flags: Byte, acts: seq<Action>, x: int)
    requires x == s.current >= 0 && s.tasks[x].inUse && Next(s, -1) >= 0 && NeverRemoved(acts, x)
    ensures ResumesSeeing(s, [DoRun(flags)] + acts, x, s.tasks[x].savedSp,
                          Above(s.tasks[x].stack, s.tasks[x].savedSp), s.tasks[x].flags)
  {
    var a := DoRun(flags);
    assert ([a] + acts)[1..] == acts;
    SlotWaits(s, a, x);
    hide Step, Next;
    if Step(s, a).current != x {
      WaitingSlotKept(Step(s, a), acts, x);
    }
  }
}
