/** The abstract state of the cooperative scheduler (src/scheduler.c, src/ctxswitch.s)
    and what each kernel operation means on it. */
module SchedulerState {
  import opened Words

  const MAX_TASKS := 10
  // The slot after the last task stands for scheduler_ctx, the saved context of main().
  const SCHED_CTX := MAX_TASKS
  const PAGE_SIZE := 256
  const EMPTY_SP: Byte := 0xFF

  type Page = p: seq<Byte> | |p| == PAGE_SIZE witness seq(PAGE_SIZE, _ => 0)
  type Slot = x: int | -1 <= x < MAX_TASKS   // -1: no task

  datatype Task = Task(fn: int, arg: int, inUse: bool, oneShot: bool, started: bool,
                       savedSp: Byte, flags: Byte, wakeTick: U16, stack: Page)

  const NO_TASK := Task(0, 0, false, false, false, EMPTY_SP, 0, 0, seq(PAGE_SIZE, _ => 0))

  type Table = t: seq<Task> | |t| == MAX_TASKS + 1 witness seq(MAX_TASKS + 1, _ => NO_TASK)

  /** `page` and `sp` are the 6502 hardware stack page and the stack pointer. */
  datatype State = State(tasks: Table, current: Slot, idle: Slot, ticks: U16,
                         cpuActive: U32, cpuTotal: U32, page: Page, sp: Byte)

  // ---- Selection ----

  /** The 16-bit difference test of find_next_task. */
  predicate Due(ticks: U16, wakeTick: U16) {
    wakeTick == 0 || (ticks - wakeTick) % 0x1_0000 < 0x8000
  }

  predicate Eligible(s: State, i: int)
    requires 0 <= i < MAX_TASKS
  {
    s.tasks[i].inUse && Due(s.ticks, s.tasks[i].wakeTick)
  }

  /** How many slots the cyclic search starting after `from` passes before it looks at `i`. */
  function Distance(from: Slot, i: int): (d: int)
    requires 0 <= i < MAX_TASKS
    ensures 0 <= d < MAX_TASKS
  {
    if i > from then i - from - 1 else i - from - 1 + MAX_TASKS
  }

  function SlotAt(from: Slot, d: int): (i: int)
    requires 0 <= d < MAX_TASKS
    ensures 0 <= i < MAX_TASKS && Distance(from, i) == d
  {
    if from + 1 + d < MAX_TASKS then from + 1 + d else from + 1 + d - MAX_TASKS
  }

  /** The program computes the same slot with two remainders. */
  lemma SlotAtByRemainder(from: Slot, d: int)
    requires 0 <= d < MAX_TASKS
    ensures ((if from < 0 then 0 else (from + 1) % MAX_TASKS) + d) % MAX_TASKS == SlotAt(from, d)
  {
  }

  /** First eligible non-idle slot at cyclic distance `d` or more, else -1. */
  function Scan(s: State, from: Slot, d: int): (r: Slot)
    requires 0 <= d <= MAX_TASKS
    ensures r >= 0 ==> Eligible(s, r) && r != s.idle && d <= Distance(from, r)
    ensures r >= 0 ==> forall i | 0 <= i < MAX_TASKS && i != s.idle && Eligible(s, i) ::
                         Distance(from, i) < d || Distance(from, r) <= Distance(from, i)
    ensures r < 0 ==> forall i | 0 <= i < MAX_TASKS && i != s.idle && Eligible(s, i) :: Distance(from, i) < d
    decreases MAX_TASKS - d
  {
    if d == MAX_TASKS then -1
    else
      var i := SlotAt(from, d);
      if i != s.idle && Eligible(s, i) then i else Scan(s, from, d + 1)
  }

  lemma ScanUnfolds(s: State, from: Slot, d: int)
    requires 0 <= d < MAX_TASKS
    ensures var i := ((if from < 0 then 0 else (from + 1) % MAX_TASKS) + d) % MAX_TASKS;
            Scan(s, from, d) == if i != s.idle && Eligible(s, i) then i else Scan(s, from, d + 1)
    ensures Scan(s, from, MAX_TASKS) == -1
  {
    SlotAtByRemainder(from, d);
  }

  function Next(s: State, from: Slot): (r: Slot) {
    var r := Scan(s, from, 0);
    if r >= 0 then r
    else if s.idle >= 0 && Eligible(s, s.idle) then s.idle
    else -1
  }

  /** The selection rule: the nearest eligible non-idle task in cyclic order; the idle task
      only when there is no other; nothing exactly when nothing is eligible. */
  lemma NextSelects(s: State, from: Slot)
    ensures var r := Next(s, from);
            && (r == -1 <==> forall i | 0 <= i < MAX_TASKS :: !Eligible(s, i))
            && (r >= 0 ==> Eligible(s, r))
            && (r >= 0 && r != s.idle ==>
                  forall i | 0 <= i < MAX_TASKS && i != s.idle && Eligible(s, i) && i != r ::
                    Distance(from, r) < Distance(from, i))
            && (r >= 0 && r == s.idle ==>
                  forall i | 0 <= i < MAX_TASKS && i != s.idle :: !Eligible(s, i))
  {
    var r := Next(s, from);
    if r >= 0 && r != s.idle {
      forall i | 0 <= i < MAX_TASKS && i != s.idle && Eligible(s, i) && i != r
        ensures Distance(from, r) < Distance(from, i)
      {
        assert Distance(from, r) <= Distance(from, i);
      }
    }
  }

  // ---- The context switch ----

  /** Page bytes above a stack pointer: the part of the stack in use. */
  function Above(page: Page, sp: Byte): seq<Byte> {
    page[sp + 1..]
  }

  /** `page` with everything above `sp` taken from `source`. */
  function Overlay(page: Page, sp: Byte, source: Page): (p: Page)
    ensures Above(p, sp) == Above(source, sp)
  {
    page[..sp + 1] + source[sp + 1..]
  }

  /** Save SP, flags and the used stack bytes of `cur`; bring in those of `next`; mark `next`
      started.  The flag pushes go through the byte at SP, below the saved part. */
  function Switch(s: State, cur: int, next: int, flags: Byte): State
    requires 0 <= cur <= MAX_TASKS && 0 <= next < MAX_TASKS
  {
    var page := s.page[s.sp := flags];
    var saved := s.tasks[cur := s.tasks[cur].(savedSp := s.sp, flags := flags,
                                              stack := Overlay(s.tasks[cur].stack, s.sp, page))];
    var n := saved[next];
    s.(tasks := saved[next := n.(started := true)],
       page := Overlay(page, n.savedSp, n.stack)[n.savedSp := n.flags],
       sp := n.savedSp)
  }

  function Owner(current: Slot): int {
    if current < 0 then SCHED_CTX else current
  }

  // ---- Kernel operations ----

  function Tick(s: State): State {
    s.(ticks := (s.ticks + 1) % 0x1_0000, cpuTotal := (s.cpuTotal + 1) % 0x1_0000_0000)
  }

  /** The turn passes to `next`; ticks spent on the idle task are not counted as active. */
  function Handed(t: State, next: Slot): State {
    t.(current := next,
       cpuActive := if next != t.idle then (t.cpuActive + 1) % 0x1_0000_0000 else t.cpuActive)
  }

  function Yield(s: State, flags: Byte): State {
    var t := Tick(s);
    var next := Next(t, t.current);
    if next < 0 then t else Switch(Handed(t, next), Owner(s.current), next, flags)
  }

  /** The selection fields of a task; a context switch leaves them alone. */
  predicate SameCall(a: Task, b: Task) {
    a.inUse == b.inUse && a.wakeTick == b.wakeTick && a.fn == b.fn && a.arg == b.arg && a.oneShot == b.oneShot
  }

  lemma SwitchKeepsCalls(s: State, cur: int, next: int, flags: Byte)
    requires 0 <= cur <= MAX_TASKS && 0 <= next < MAX_TASKS
    ensures var r := Switch(s, cur, next, flags);
            && r.current == s.current && r.idle == s.idle && r.ticks == s.ticks
            && forall i | 0 <= i <= MAX_TASKS :: SameCall(r.tasks[i], s.tasks[i])
  {
  }

  lemma YieldMoves(s: State, flags: Byte)
    ensures var r, next := Yield(s, flags), Next(Tick(s), s.current);
            && r.current == (if next < 0 then s.current else next)
            && r.idle == s.idle && r.ticks == (s.ticks + 1) % 0x1_0000
            && forall i | 0 <= i <= MAX_TASKS :: SameCall(r.tasks[i], s.tasks[i])
  {
    var t, next := Tick(s), Next(Tick(s), s.current);
    if next >= 0 {
      SwitchKeepsCalls(Handed(t, next), Owner(s.current), next, flags);
    }
  }

  function WithWake(s: State, id: int, wakeTick: U16): State
    requires 0 <= id < MAX_TASKS
  {
    s.(tasks := s.tasks[id := s.tasks[id].(wakeTick := wakeTick)])
  }

  function Delay(delta: U16): U16 {
    if delta == 0 then 1 else delta
  }

  function Sleep(s: State, delta: U16, flags: Byte): State {
    if s.current < 0 then s
    else Yield(WithWake(s, s.current, (s.ticks + Delay(delta)) % 0x1_0000), flags)
  }

  function Ended(s: State): State {
    if s.current < 0 then s
    else s.(tasks := s.tasks[s.current := s.tasks[s.current].(inUse := false)])
  }

  function TaskReturn(s: State, flags: Byte): State {
    Yield(Ended(s), flags)
  }

  function Run(s: State, flags: Byte): State {
    var first := Next(s, -1);
    if first < 0 then s else Switch(s.(current := first), SCHED_CTX, first, flags)
  }

  /** Lowest slot at or above `i` that is not in use, else -1. */
  function FreeSlot(tasks: Table, i: int): (r: Slot)
    requires 0 <= i <= MAX_TASKS
    ensures r >= 0 ==> i <= r && !tasks[r].inUse && forall j | i <= j < r :: tasks[j].inUse
    ensures r < 0 ==> forall j | i <= j < MAX_TASKS :: tasks[j].inUse
    decreases MAX_TASKS - i
  {
    if i == MAX_TASKS then -1
    else if !tasks[i].inUse then i
    else FreeSlot(tasks, i + 1)
  }

  function Add(s: State, fn: int, arg: int, once: bool): State {
    var i := FreeSlot(s.tasks, 0);
    if i < 0 then s
    else s.(tasks := s.tasks[i := s.tasks[i].(fn := fn, arg := arg, inUse := true, oneShot := once,
                                              started := false, savedSp := EMPTY_SP, wakeTick := 0)])
  }

  function Remove(s: State, id: int): State {
    if 0 <= id < MAX_TASKS
    then s.(tasks := s.tasks[id := s.tasks[id].(inUse := false, fn := 0, arg := 0, started := false)])
    else s
  }

  function SetIdle(s: State, id: int): State {
    s.(idle := if 0 <= id < MAX_TASKS then id else -1)
  }
}
