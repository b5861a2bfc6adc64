/** What stops the self-test, exactly, whatever other tasks do with other queues: the counted
    operation after a push that brings the count of pushes to a multiple of 2^32. */
module QueueTestCrossing {
  import opened Words
  import RingQueue
  import opened QueueTest
  import opened QueueTestRounds
  import opened QueueTestTotals
  import opened QueueTestLimit

  // ---- The counted operations of a run ----

  /** An operation that moves one of the two totals. */
  datatype Op = Push | Pop

  function Count(t: RingQueue.Totals, op: Op): RingQueue.Totals {
    if t.halted then t
    else
      match op
      case Push => RingQueue.CountPush(t)
      case Pop => RingQueue.CountPop(t)
  }

  function CountAll(t: RingQueue.Totals, ops: seq<Op>): RingQueue.Totals
    decreases |ops|
  {
    if ops == [] then t else CountAll(Count(t, ops[0]), ops[1..])
  }

  function Copies(k: nat): seq<Op> {
    if k == 0 then [] else Copies(k - 1) + [Push]
  }

  /** The pushes of a slice come before its pop. */
  function ActOps(t: Test, others: nat, cap: nat, a: Act): seq<Op>
    requires Invariant(t)
  {
    match a
    case Task(turn) => Copies(Pushes(t, cap, turn)) + (if Pops(t, cap, turn) == 0 then [] else [Pop])
    case Other(OtherPush) => [Push]
    case Other(OtherPop) => if others == 0 then [] else [Pop]
    case Other(OtherDrop(_)) => []
  }

  function OthersAfter(others: nat, a: Act): nat {
    match a
    case Task(_) => others
    case Other(OtherPush) => others + 1
    case Other(OtherPop) => if others == 0 then 0 else others - 1
    case Other(OtherDrop(n)) => if n <= others then others - n else 0
  }

  /** The counted operations of the test and the other tasks, were there no totals to stop them. */
  function OpsOf(t: Test, others: nat, cap: nat, acts: seq<Act>): seq<Op>
    requires Invariant(t)
    decreases |acts|
  {
    if acts == [] then []
    else
      ActOps(t, others, cap, acts[0])
      + OpsOf(TestStep(t, cap, acts[0]), OthersAfter(others, acts[0]), cap, acts[1..])
  }

  lemma {:induction false} CountConcat(t: RingQueue.Totals, a: seq<Op>, b: seq<Op>)
    ensures CountAll(t, a + b) == CountAll(CountAll(t, a), b)
    decreases |a|
  {
    hide Count;
    if a == [] {
      assert a + b == b;
    } else {
      assert (a + b)[1..] == a[1..] + b;
      CountConcat(Count(t, a[0]), a[1..], b);
    }
  }

  lemma CountOne(t: RingQueue.Totals, op: Op)
    ensures CountAll(t, [op]) == Count(t, op)
  {
    assert [op][1..] == [];
  }

  lemma {:induction false} CountCopies(t: RingQueue.Totals, k: nat)
    requires !t.halted
    ensures CountAll(t, Copies(k)) == CountPushes(t, k)
  {
    if k > 0 {
      CountCopies(t, k - 1);
      CountConcat(t, Copies(k - 1), [Push]);
      CountOne(CountPushes(t, k - 1), Push);
    }
  }

  lemma StepCounts(c: Counted, cap: nat, a: Act)
    requires Invariant(c.test) && !c.totals.halted
    ensures var d := CStep(c, cap, a);
            && d.totals == CountAll(c.totals, ActOps(c.test, c.others, cap, a))
            && (!d.totals.halted ==> d.test == TestStep(c.test, cap, a) && d.others == OthersAfter(c.others, a))
  {
    hide Invariant, Step, Pushes, Pops, CountPushes;
    match a
    case Task(turn) =>
      var k := Pushes(c.test, cap, turn);
      CountCopies(c.totals, k);
      CountConcat(c.totals, Copies(k), [Pop]);
      CountOne(CountPushes(c.totals, k), Pop);
      assert Copies(k) + [] == Copies(k);
    case Other(OtherPush) => CountOne(c.totals, Push);
    case Other(OtherPop) => CountOne(c.totals, Pop);
    case Other(OtherDrop(_)) =>
  }

  lemma {:induction false} HaltedCounts(t: RingQueue.Totals, ops: seq<Op>)
    requires t.halted
    ensures CountAll(t, ops) == t
  {
    if ops != [] {
      HaltedCounts(t, ops[1..]);
    }
  }

  /** The totals see only the counted operations, and do nothing to the test until they stop it. */
  lemma {:induction false} ExecCounts(c: Counted, cap: nat, acts: seq<Act>)
    requires Invariant(c.test) && !c.totals.halted
    ensures var d := CExec(c, cap, acts);
            && d.totals == CountAll(c.totals, OpsOf(c.test, c.others, cap, acts))
            && (!d.totals.halted ==> d.test == TestExec(c.test, cap, acts))
    decreases |acts|
  {
    hide Invariant, CStep, TestStep, ActOps, OthersAfter;
    if acts != [] {
      var d, ops := CStep(c, cap, acts[0]), ActOps(c.test, c.others, cap, acts[0]);
      var rest := OpsOf(TestStep(c.test, cap, acts[0]), OthersAfter(c.others, acts[0]), cap, acts[1..]);
      StepCounts(c, cap, acts[0]);
      CountConcat(c.totals, ops, rest);
      if d.totals.halted {
        HaltedStays(d, cap, acts[1..]);
        HaltedCounts(d.totals, rest);
      } else {
        ExecCounts(d, cap, acts[1..]);
      }
    }
  }

  // ---- The true counts ----

  function PushesIn(ops: seq<Op>): nat {
    if ops == [] then 0 else (if ops[0] == Push then 1 else 0) + PushesIn(ops[1..])
  }

  function PopsIn(ops: seq<Op>): nat {
    if ops == [] then 0 else (if ops[0] == Pop then 1 else 0) + PopsIn(ops[1..])
  }

  /** With p pushes and q pops so far: the last push wrapped the total, and this operation is not
      the pop of the only word between the counts. */
  predicate Caught(p: nat, q: nat, op: Op) {
    p % LIMIT == 0 && q < p && !(op == Pop && q + 1 == p)
  }

  predicate CaughtAt(p: nat, q: nat, ops: seq<Op>, k: nat)
    requires k < |ops|
  {
    Caught(p + PushesIn(ops[..k]), q + PopsIn(ops[..k]), ops[k])
  }

  /** Some operation, with p pushes and q pops before the first one, is caught like this. */
  predicate Catches(p: nat, q: nat, ops: seq<Op>) {
    exists k: nat | k < |ops| :: CaughtAt(p, q, ops, k)
  }

  /** The counts stay less than 2^32 apart, and no word is popped before it is pushed. */
  predicate Near(p: nat, q: nat, ops: seq<Op>)
    decreases |ops|
  {
    && q <= p < q + LIMIT
    && (ops == [] || Near(if ops[0] == Push then p + 1 else p, if ops[0] == Pop then q + 1 else q, ops[1..]))
  }

  /** Both totals have wrapped equally often, or a push has just wrapped the one. */
  predicate InStep(p: nat, q: nat) {
    p / LIMIT == q / LIMIT || (p / LIMIT == q / LIMIT + 1 && p % LIMIT == 0)
  }

  lemma CaughtLater(p: nat, q: nat, ops: seq<Op>, k: nat)
    requires k + 1 < |ops|
    ensures CaughtAt(p, q, ops, k + 1)
            <==> CaughtAt(if ops[0] == Push then p + 1 else p, if ops[0] == Pop then q + 1 else q, ops[1..], k)
  {
    hide Caught;
    assert ops[..k + 1][1..] == ops[1..][..k];
  }

  lemma CaughtFirst(p: nat, q: nat, ops: seq<Op>)
    requires ops != []
    ensures CaughtAt(p, q, ops, 0) <==> Caught(p, q, ops[0])
  {
    assert ops[..0] == [];
  }

  lemma CatchesUnfolds(p: nat, q: nat, ops: seq<Op>)
    requires ops != []
    ensures Catches(p, q, ops)
            <==> Caught(p, q, ops[0])
                 || Catches(if ops[0] == Push then p + 1 else p, if ops[0] == Pop then q + 1 else q, ops[1..])
  {
    hide Caught, CaughtAt;
    var p', q' := if ops[0] == Push then p + 1 else p, if ops[0] == Pop then q + 1 else q;
    CaughtFirst(p, q, ops);
    if Catches(p, q, ops) && !Caught(p, q, ops[0]) {
      var k: nat :| k < |ops| && CaughtAt(p, q, ops, k);
      CaughtLater(p, q, ops, k - 1);
    }
    if Catches(p', q', ops[1..]) {
      var k: nat :| k < |ops[1..]| && CaughtAt(p', q', ops[1..], k);
      CaughtLater(p, q, ops, k);
    }
  }

  /** One operation: the comparison of the wrapped counts stops it exactly when it is caught. */
  lemma CountCatches(p: nat, q: nat, op: Op)
    requires q <= p < q + LIMIT && InStep(p, q)
    requires var p', q' := if op == Push then p + 1 else p, if op == Pop then q + 1 else q; q' <= p' < q' + LIMIT
    ensures var p', q' := if op == Push then p + 1 else p, if op == Pop then q + 1 else q;
            var u := Count(RingQueue.Totals(Wrap32(p), Wrap32(q), false), op);
            if Caught(p, q, op) then u.halted
            else u == RingQueue.Totals(Wrap32(p'), Wrap32(q'), false) && InStep(p', q')
  {
  }

  lemma {:induction false} CountsCatch(p: nat, q: nat, ops: seq<Op>)
    requires Near(p, q, ops) && InStep(p, q)
    ensures CountAll(RingQueue.Totals(Wrap32(p), Wrap32(q), false), ops).halted <==> Catches(p, q, ops)
    decreases |ops|
  {
    hide Caught, Catches, InStep, Wrap32, Count;
    if ops == [] {
      NothingCaught(p, q);
    } else {
      var p', q' := if ops[0] == Push then p + 1 else p, if ops[0] == Pop then q + 1 else q;
      CatchesUnfolds(p, q, ops);
      CountCatches(p, q, ops[0]);
      if Caught(p, q, ops[0]) {
        HaltedCounts(Count(RingQueue.Totals(Wrap32(p), Wrap32(q), false), ops[0]), ops[1..]);
      } else {
        CountsCatch(p', q', ops[1..]);
      }
    }
  }

  lemma NothingCaught(p: nat, q: nat)
    ensures !Catches(p, q, [])
  {
  }

  // ---- How far the counts are apart ----

  lemma {:induction false} OpsConcat(a: seq<Op>, b: seq<Op>)
    ensures PushesIn(a + b) == PushesIn(a) + PushesIn(b) && PopsIn(a + b) == PopsIn(a) + PopsIn(b)
  {
    if a == [] {
      assert a + b == b;
    } else {
      assert (a + b)[1..] == a[1..] + b;
      OpsConcat(a[1..], b);
    }
  }

  lemma {:induction false} NearConcat(p: nat, q: nat, a: seq<Op>, b: seq<Op>)
    requires Near(p, q, a) && Near(p + PushesIn(a), q + PopsIn(a), b)
    ensures Near(p, q, a + b)
    decreases |a|
  {
    if a == [] {
      assert a + b == b;
    } else {
      assert (a + b)[1..] == a[1..] + b;
      NearConcat(if a[0] == Push then p + 1 else p, if a[0] == Pop then q + 1 else q, a[1..], b);
    }
  }

  lemma NearOne(p: nat, q: nat, op: Op)
    requires q <= p < q + LIMIT && (if op == Push then p + 1 < q + LIMIT else q < p)
    ensures Near(p, q, [op])
    ensures PushesIn([op]) == (if op == Push then 1 else 0) && PopsIn([op]) == (if op == Pop then 1 else 0)
  {
    assert [op][1..] == [];
  }

  lemma {:induction false} NearCopies(p: nat, q: nat, k: nat)
    requires q <= p && p + k < q + LIMIT
    ensures Near(p, q, Copies(k)) && PushesIn(Copies(k)) == k && PopsIn(Copies(k)) == 0
  {
    if k > 0 {
      NearCopies(p, q, k - 1);
      NearOne(p + k - 1, q, Push);
      NearConcat(p, q, Copies(k - 1), [Push]);
      OpsConcat(Copies(k - 1), [Push]);
    }
  }

  function HeldAfter(others: nat, held: nat, a: Act): nat
    requires others <= held
  {
    match a
    case Other(OtherPush) => held + 1
    case Other(OtherPop) => if others == 0 then held else held - 1
    case _ => held
  }

  /** What the other queues hold now or have dropped stays below 2^32 - 2^16 words. */
  predicate Roomy(others: nat, held: nat, acts: seq<Act>)
    decreases |acts|
  {
    && others <= held && held + 0x1_0000 <= LIMIT
    && (acts == [] || Roomy(OthersAfter(others, acts[0]), HeldAfter(others, held, acts[0]), acts[1..]))
  }

  lemma ActStaysNear(t: Test, others: nat, held: nat, cap: nat, a: Act, p: nat, q: nat)
    requires Invariant(t) && p == q + |t.queue| + held
    requires Roomy(others, held, [a])
    ensures var ops := ActOps(t, others, cap, a);
            && Near(p, q, ops)
            && p + PushesIn(ops) == q + PopsIn(ops) + |TestStep(t, cap, a).queue| + HeldAfter(others, held, a)
  {
    RoomyOne(others, held, a);
    InvariantMeans(t);
    hide Invariant, Step;
    match a
    case Task(turn) =>
      var k := Pushes(t, cap, turn);
      SliceMoves(t, cap, turn);
      QueueIsShort(TestStep(t, cap, a));
      NearCopies(p, q, k);
      if Pops(t, cap, turn) == 0 {
        assert Copies(k) + [] == Copies(k);
      } else {
        NearOne(p + k, q, Pop);
        NearConcat(p, q, Copies(k), [Pop]);
        OpsConcat(Copies(k), [Pop]);
      }
    case Other(OtherPush) => NearOne(p, q, Push);
    case Other(OtherPop) => if others > 0 { NearOne(p, q, Pop); }
    case Other(OtherDrop(_)) =>
  }

  lemma RoomyOne(others: nat, held: nat, a: Act)
    requires Roomy(others, held, [a])
    ensures others <= held && held + 0x1_0000 <= LIMIT && HeldAfter(others, held, a) + 0x1_0000 <= LIMIT
  {
    assert [a][1..] == [];
  }

  lemma QueueIsShort(t: Test)
    requires Invariant(t)
    ensures |t.queue| < 0x1_0000
  {
    InvariantMeans(t);
  }

  lemma {:induction false} StaysNear(t: Test, others: nat, held: nat, cap: nat, acts: seq<Act>, p: nat, q: nat)
    requires Invariant(t) && p == q + |t.queue| + held && Roomy(others, held, acts)
    ensures Near(p, q, OpsOf(t, others, cap, acts))
    decreases |acts|
  {
    if acts == [] {
      QueueIsShort(t);
    } else {
      hide Invariant, Near, ActOps, TestStep;
      var a, ops := acts[0], ActOps(t, others, cap, acts[0]);
      assert [a][1..] == [];
      ActStaysNear(t, others, held, cap, a, p, q);
      StaysNear(TestStep(t, cap, a), OthersAfter(others, a), HeldAfter(others, held, a), cap, acts[1..],
                p + PushesIn(ops), q + PopsIn(ops));
      NearConcat(p, q, ops, OpsOf(TestStep(t, cap, a), OthersAfter(others, a), cap, acts[1..]));
    }
  }

  // ---- What stops the program ----

  /** The totals are those of p pushes and q pops modulo 2^32; the words between the counts are the
      queue's and `held` others, in other queues or dropped there. */
  predicate Shows(c: Counted, p: nat, q: nat, held: nat) {
    && Invariant(c.test) && InStep(p, q) && p == q + |c.test.queue| + held
    && c.totals == RingQueue.Totals(Wrap32(p), Wrap32(q), false)
  }

  lemma BootShows(n: nat)
    ensures Shows(Counted(Boot(n), RingQueue.Totals(0, 0, false), 0), 0, 0, 0)
  {
    BootInvariant(n);
  }

  /** Whatever the order of the slices, and whatever other tasks push to, pop from and drop from
      other queues: the program is stopped if and only if some push brings the count to a multiple
      of 2^32 and the next counted operation is not the pop of the only word between the counts.
      Until then the totals do not disturb the test. */
  lemma StopsExactly(c: Counted, cap: nat, acts: seq<Act>, p: nat, q: nat, held: nat)
    requires Shows(c, p, q, held) && Roomy(c.others, held, acts)
    ensures var d := CExec(c, cap, acts);
            && (d.totals.halted <==> Catches(p, q, OpsOf(c.test, c.others, cap, acts)))
            && (!d.totals.halted ==> d.test == TestExec(c.test, cap, acts))
  {
    hide Catches, InStep, OpsOf, CExec, TestExec, Roomy, Invariant;
    ExecCounts(c, cap, acts);
    StaysNear(c.test, c.others, held, cap, acts, p, q);
    CountsCatch(p, q, OpsOf(c.test, c.others, cap, acts));
  }

  /** So from the start of the program on. */
  lemma StopsExactlyFromBoot(n: nat, cap: nat, acts: seq<Act>)
    requires Roomy(0, 0, acts)
    ensures Invariant(Boot(n))
    ensures CExec(Counted(Boot(n), RingQueue.Totals(0, 0, false), 0), cap, acts).totals.halted
            <==> Catches(0, 0, OpsOf(Boot(n), 0, cap, acts))
  {
    hide Catches, OpsOf, CExec, TestExec, Roomy;
    BootShows(n);
    StopsExactly(Counted(Boot(n), RingQueue.Totals(0, 0, false), 0), cap, acts, 0, 0, 0);
  }

  // ---- When a run ends ----

  predicate EndsTest(t: Test, r: nat) {
    Complete(t) && t.runs == r
  }

  /** The first point of a schedule at which the run is complete. */
  lemma {:induction false} FirstEnd(t: Test, cap: nat, acts: seq<Act>, r: nat, p: nat) returns (m: nat)
    requires Invariant(t) && p <= |acts| && EndsTest(TestExec(t, cap, acts[..p]), r)
    ensures m <= p && EndsTest(TestExec(t, cap, acts[..m]), r)
    ensures forall j | 0 <= j < m :: !EndsTest(TestExec(t, cap, acts[..j]), r)
    decreases p
  {
    hide Invariant, EndsTest, TestExec;
    if j: nat :| j < p && EndsTest(TestExec(t, cap, acts[..j]), r) {
      m := FirstEnd(t, cap, acts, r, j);
    } else {
      m := p;
    }
  }

  lemma {:induction false} RoomyPrefix(others: nat, held: nat, acts: seq<Act>, k: nat)
    requires Roomy(others, held, acts) && k <= |acts|
    ensures Roomy(others, held, acts[..k])
    decreases k
  {
    if k > 0 {
      RoomyPrefix(OthersAfter(others, acts[0]), HeldAfter(others, held, acts[0]), acts[1..], k - 1);
      assert acts[..k][1..] == acts[1..][..k - 1];
    }
  }

  /** A self-test run beside any use of other queues, for any number of consumers, any capacity and
      any item count: alone it would be complete at point m of the schedule, within as many rounds
      as items, plus three.  It is completed if and only if up to there no push that brings the
      count to a multiple of 2^32 is followed by a counted operation that stops the program. */
  lemma RunEndsExactly(c: Counted, acts: seq<Act>, cap: nat, pick: nat -> U16, p: nat, q: nat, held: nat)
    returns (m: nat)
    requires AtStart(c.test) && cap > 0 && InTurn(c.test, acts, 0, cap, pick)
    requires Slices(acts) >= (pick(c.test.runs + 1) + 3) * (|c.test.consumers| + 1)
    requires Shows(c, p, q, held) && Roomy(c.others, held, acts)
    ensures m <= |acts| && Slices(acts[..m]) <= (pick(c.test.runs + 1) + 3) * (|c.test.consumers| + 1)
    ensures EndsTest(TestExec(c.test, cap, acts[..m]), c.test.runs + 1)
    ensures forall j | 0 <= j < m :: !EndsTest(TestExec(c.test, cap, acts[..j]), c.test.runs + 1)
    ensures (exists k | 0 <= k <= |acts| :: Ends(CExec(c, cap, acts[..k]), c.test.runs + 1))
            <==> !Catches(p, q, OpsOf(c.test, c.others, cap, acts[..m]))
  {
    hide CExec, TestExec, InTurn, Slices, Complete, Exact, All, Shows, Roomy, Catches, OpsOf;
    var r := c.test.runs + 1;
    var e := TestCompletes(c.test, acts, cap, pick);
    m := FirstEnd(c.test, cap, acts, r, e);
    FewerSlices(acts, m, e);
    forall k | 0 <= k <= |acts|
      ensures var d := CExec(c, cap, acts[..k]);
              && (d.totals.halted <==> Catches(p, q, OpsOf(c.test, c.others, cap, acts[..k])))
              && (!d.totals.halted ==> d.test == TestExec(c.test, cap, acts[..k]))
    {
      RoomyPrefix(c.others, held, acts, k);
      StopsExactly(c, cap, acts[..k], p, q, held);
    }
    if k :| 0 <= k <= |acts| && Ends(CExec(c, cap, acts[..k]), r) {
      assert m <= k;
      HaltsBefore(c, cap, acts, m, k);
    }
    if !Catches(p, q, OpsOf(c.test, c.others, cap, acts[..m])) {
      assert Ends(CExec(c, cap, acts[..m]), r);
    }
  }

  lemma HaltsBefore(c: Counted, cap: nat, acts: seq<Act>, m: nat, k: nat)
    requires Invariant(c.test) && m <= k <= |acts|
    ensures CExec(c, cap, acts[..m]).totals.halted ==> CExec(c, cap, acts[..k]).totals.halted
  {
    hide CExec, Invariant;
    assert acts[..k] == acts[..m] + acts[m..k];
    ExecConcat(c, cap, acts[..m], acts[m..k]);
    if CExec(c, cap, acts[..m]).totals.halted {
      HaltedStays(CExec(c, cap, acts[..m]), cap, acts[m..k]);
    }
  }

  lemma {:induction false} FewerSlices(acts: seq<Act>, m: nat, e: nat)
    requires m <= e <= |acts|
    ensures Slices(acts[..m]) <= Slices(acts[..e])
    decreases m
  {
    if m > 0 {
      FewerSlices(acts[1..], m - 1, e - 1);
      assert acts[..m][1..] == acts[1..][..m - 1] && acts[..e][1..] == acts[1..][..e - 1];
    }
  }
}
