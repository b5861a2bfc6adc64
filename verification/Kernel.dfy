/** The scheduler as the program has it: one object whose task table, stack page and counters
    are updated in place.  Every method is proved to realise its meaning in SchedulerState. */
module Kernel {
  import opened Words
  import opened SchedulerState

  class Scheduler {
    // tasks[..MAX_TASKS] is the task table; tasks[SCHED_CTX] is scheduler_ctx.
    const tasks: array<Task>
    // The hardware stack page $0100..$01FF and the stack pointer.
    const page: array<Byte>
    var sp: Byte
    var current: Slot
    var idle: Slot
    var ticks: U16
    var cpuActive: U32
    var cpuTotal: U32
    // Indices into `tasks`, where the program has pointers.
    var ctxCur: int
    var ctxNext: int

    ghost predicate Valid()
      reads this
    {
      tasks.Length == MAX_TASKS + 1 && page.Length == PAGE_SIZE
    }

    ghost function Abs(): State
      requires Valid()
      reads this, tasks, page
    {
      State(tasks[..], current, idle, ticks, cpuActive, cpuTotal, page[..], sp)
    }

    /** Static initial values followed by scheduler_init. */
    constructor (page: array<Byte>, sp: Byte)
      requires page.Length == PAGE_SIZE
      ensures Valid() && fresh(tasks) && this.page == page
      ensures current == -1 && idle == -1 && ticks == 0 && cpuActive == 0 && cpuTotal == 0 && this.sp == sp
      ensures forall i | 0 <= i < MAX_TASKS :: tasks[i] == NO_TASK
    {
      this.page, this.sp := page, sp;
      current, idle, ticks, cpuActive, cpuTotal := -1, -1, 0, 0, 0;
      ctxCur, ctxNext := SCHED_CTX, SCHED_CTX;
      tasks := new Task[MAX_TASKS + 1](_ => NO_TASK);
      new;
      tasks[SCHED_CTX] := tasks[SCHED_CTX].(inUse := true);
    }

    method FindNextTask(from: Slot) returns (r: Slot)
      requires Valid()
      ensures r == Next(Abs(), from)
    {
      hide Due, SlotAt, Distance, Scan;
      ghost var s := Abs();
      var start := if from < 0 then 0 else (from + 1) % MAX_TASKS;
      var i := 0;
      while i < MAX_TASKS
        invariant 0 <= i <= MAX_TASKS
        invariant Scan(s, from, 0) == Scan(s, from, i)
      {
        var idx := (start + i) % MAX_TASKS;
        ScanUnfolds(s, from, i);
        if tasks[idx].inUse && idx != idle && Due(ticks, tasks[idx].wakeTick) {
          return idx;
        }
        i := i + 1;
      }
      if 0 <= idle < MAX_TASKS && tasks[idle].inUse && Due(ticks, tasks[idle].wakeTick) {
        return idle;
      }
      // The last resort search.  Nothing is eligible by now, so its return is never taken.
      NextSelects(s, from);
      i := 0;
      while i < MAX_TASKS
        invariant 0 <= i <= MAX_TASKS
      {
        var idx := (start + i) % MAX_TASKS;
        assert !Eligible(s, idx);
        if tasks[idx].inUse && Due(ticks, tasks[idx].wakeTick) {
          assert false;
        }
        i := i + 1;
      }
      return -1;
    }

    method SchedulerAdd(fn: int, arg: int) returns (id: Slot)
      requires Valid()
      modifies tasks
      ensures Abs() == Add(old(Abs()), fn, arg, false)
      ensures id == FreeSlot(old(tasks[..]), 0)
      ensures id == -1 <==> forall j | 0 <= j < MAX_TASKS :: old(tasks[j]).inUse
      ensures id >= 0 ==> !old(tasks[id]).inUse && forall j | 0 <= j < id :: old(tasks[j]).inUse
      ensures id >= 0 ==> && tasks[id].fn == fn && tasks[id].arg == arg && tasks[id].inUse && !tasks[id].oneShot
                          && !tasks[id].started && tasks[id].savedSp == 0xFF && tasks[id].wakeTick == 0
      ensures forall j | 0 <= j <= MAX_TASKS && j != id :: tasks[j] == old(tasks[j])
    {
      var i := 0;
      while i < MAX_TASKS
        invariant 0 <= i <= MAX_TASKS
        invariant FreeSlot(tasks[..], 0) == FreeSlot(tasks[..], i)
        invariant Abs() == old(Abs())
      {
        if !tasks[i].inUse {
          tasks[i] := tasks[i].(fn := fn, arg := arg, inUse := true, oneShot := false, started := false,
                                savedSp := EMPTY_SP, wakeTick := 0);
          return i;
        }
        i := i + 1;
      }
      return -1;
    }

    method SchedulerAddOnce(fn: int, arg: int) returns (id: Slot)
      requires Valid()
      modifies tasks
      ensures Abs() == Add(old(Abs()), fn, arg, true)
      ensures id == FreeSlot(old(tasks[..]), 0)
      ensures id >= 0 ==> && tasks[id].fn == fn && tasks[id].arg == arg && tasks[id].inUse && tasks[id].oneShot
                          && !tasks[id].started && tasks[id].savedSp == 0xFF && tasks[id].wakeTick == 0
    {
      id := SchedulerAdd(fn, arg);
      if id >= 0 {
        tasks[id] := tasks[id].(oneShot := true);
      }
    }

    method SchedulerRemove(id: int) returns (r: int)
      requires Valid()
      modifies tasks
      ensures Abs() == Remove(old(Abs()), id)
      ensures r == if 0 <= id < 10 then 0 else -1
      ensures r == 0 ==> tasks[id] == old(tasks[id]).(inUse := false, fn := 0, arg := 0, started := false)
      ensures forall j | 0 <= j <= MAX_TASKS && !(r == 0 && j == id) :: tasks[j] == old(tasks[j])
    {
      if id < 0 || id >= MAX_TASKS {
        return -1;
      }
      tasks[id] := tasks[id].(inUse := false, fn := 0, arg := 0, started := false);
      return 0;
    }

    method SchedulerSetIdleTask(id: int)
      requires Valid()
      modifies this`idle
      ensures Abs() == SetIdle(old(Abs()), id)
      ensures idle == if 0 <= id < MAX_TASKS then id else -1
    {
      if 0 <= id < MAX_TASKS {
        idle := id;
      } else {
        idle := -1;
      }
    }

    /** scheduler_copy_stacks: byte loops over the used part of the page, first out, then in. */
    method CopyStacks()
      requires Valid() && 0 <= ctxCur <= MAX_TASKS && 0 <= ctxNext <= MAX_TASKS
      modifies tasks, page
      ensures var cur, o := old(tasks[ctxCur]), old(page[..]);
              var saved := old(tasks[..])[ctxCur := cur.(stack := Overlay(cur.stack, cur.savedSp, o))];
              && tasks[..] == saved
              && page[..] == Overlay(o, saved[ctxNext].savedSp, saved[ctxNext].stack)
    {
      ghost var cur, before, original := tasks[ctxCur], tasks[..], page[..];
      var i: int := tasks[ctxCur].savedSp + 1;
      while i < PAGE_SIZE
        invariant cur.savedSp + 1 <= i <= PAGE_SIZE && page[..] == original
        invariant exists stack: Page :: PartlyCopied(stack, cur.stack, original, cur.savedSp + 1, i)
                                        && tasks[..] == before[ctxCur := cur.(stack := stack)]
      {
        tasks[ctxCur] := tasks[ctxCur].(stack := tasks[ctxCur].stack[i := page[i]]);
        i := i + 1;
      }
      assert tasks[ctxCur].stack == Overlay(cur.stack, cur.savedSp, original);
      ghost var saved := tasks[..];
      i := tasks[ctxNext].savedSp + 1;
      while i < PAGE_SIZE
        invariant saved[ctxNext].savedSp + 1 <= i <= PAGE_SIZE && tasks[..] == saved
        invariant PartlyCopied(page[..], original, saved[ctxNext].stack, saved[ctxNext].savedSp + 1, i)
      {
        page[i] := tasks[ctxNext].stack[i];
        i := i + 1;
      }
      assert page[..] == Overlay(original, saved[ctxNext].savedSp, saved[ctxNext].stack);
    }

    /** `copy` is `base` with positions from..to taken from `source`. */
    static ghost predicate PartlyCopied(copy: Page, base: Page, source: Page, from: int, to: int) {
      forall k | 0 <= k < PAGE_SIZE :: copy[k] == if from <= k < to then source[k] else base[k]
    }

    /** ctx_switch; `flags` is the processor status at the call. */
    method CtxSwitch(flags: Byte)
      requires Valid() && 0 <= ctxCur <= MAX_TASKS && 0 <= ctxNext < MAX_TASKS
      modifies this`sp, tasks, page
      ensures Abs() == Switch(old(Abs()), ctxCur, ctxNext, flags)
    {
      hide Overlay;
      ghost var s := Abs();
      page[sp] := flags;   // php, pla
      tasks[ctxCur] := tasks[ctxCur].(flags := flags);
      tasks[ctxCur] := tasks[ctxCur].(savedSp := sp);
      assert page[..] == s.page[s.sp := flags];
      assert tasks[..] == s.tasks[ctxCur := s.tasks[ctxCur].(savedSp := s.sp, flags := flags)];
      CopyStacks();
      ghost var saved, restored := tasks[..], page[..];
      assert saved == s.tasks[ctxCur := s.tasks[ctxCur].(
          savedSp := s.sp, flags := flags, stack := Overlay(s.tasks[ctxCur].stack, s.sp, s.page[s.sp := flags]))];
      sp := tasks[ctxNext].savedSp;
      page[sp] := tasks[ctxNext].flags;   // pha, plp
      if !tasks[ctxNext].started {
        tasks[ctxNext] := tasks[ctxNext].(started := true);
      }
      assert page[..] == restored[sp := saved[ctxNext].flags];
      assert tasks[..] == saved[ctxNext := saved[ctxNext].(started := true)];
    }

    method SchedulerYield(flags: Byte)
      requires Valid()
      modifies this, tasks, page
      ensures Valid() && Abs() == Yield(old(Abs()), flags)
    {
      hide Next, Switch;
      var prev := current;
      ticks := (ticks + 1) % 0x1_0000;
      cpuTotal := (cpuTotal + 1) % 0x1_0000_0000;
      var next := FindNextTask(prev);
      if next < 0 {
        return;
      }
      NextSelects(Abs(), prev);
      if prev < 0 {
        ctxCur := SCHED_CTX;
      } else {
        ctxCur := prev;
      }
      ctxNext := next;
      current := next;
      if 0 <= next < MAX_TASKS && tasks[next].inUse && next != idle {
        cpuActive := (cpuActive + 1) % 0x1_0000_0000;
      }
      CtxSwitch(flags);
    }

    method SchedulerSleep(delta: U16, flags: Byte)
      requires Valid()
      modifies this, tasks, page
      ensures Valid() && Abs() == Sleep(old(Abs()), delta, flags)
    {
      hide Yield;
      if current < 0 || current >= MAX_TASKS {
        return;
      }
      var d := delta;
      if d == 0 {
        d := 1;
      }
      tasks[current] := tasks[current].(wakeTick := (ticks + d) % 0x1_0000);
      SchedulerYield(flags);
    }

    method SchedulerTaskReturn(flags: Byte)
      requires Valid()
      modifies this, tasks, page
      ensures Valid() && Abs() == TaskReturn(old(Abs()), flags)
    {
      hide Yield;
      if 0 <= current < MAX_TASKS {
        tasks[current] := tasks[current].(inUse := false);
      }
      SchedulerYield(flags);
    }

    method SchedulerRun(flags: Byte)
      requires Valid()
      modifies this, tasks, page
      ensures Valid() && Abs() == Run(old(Abs()), flags)
    {
      hide Next, Switch;
      var first := FindNextTask(-1);
      if first < 0 {
        return;
      }
      ctxCur := SCHED_CTX;
      ctxNext := first;
      current := first;
      CtxSwitch(flags);
    }
  }
}
