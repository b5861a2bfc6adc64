/** The queue self-test under round robin, the producer's slot first: every run completes. */
module QueueTestRounds {
  import opened Words
  import opened QueueTest

  /** Consumers change only the queue side, `ready` and their own program points. */
  predicate SameProducer(t: Test, r: Test) {
    r == t.(queue := r.queue, received := r.received, recv := r.recv, recvSum := r.recvSum,
            ready := r.ready, consumers := r.consumers)
    && |r.consumers| == |t.consumers|
  }

  lemma ConsumerStays(t: Test, cap: nat, k: nat)
    requires Invariant(t) && k < |t.consumers|
    ensures Invariant(Step(t, cap, Consumer(k))) && SameProducer(t, Step(t, cap, Consumer(k)))
  {
    hide Exact, Sum, Numbers;
    StepKeeps(t, cap, Consumer(k));
  }

  /** One slice for each consumer from `k` on. */
  function Sweep(t: Test, cap: nat, k: nat): (r: Test)
    requires Invariant(t) && k <= |t.consumers|
    ensures Invariant(r) && SameProducer(t, r)
    decreases |t.consumers| - k
  {
    if k == |t.consumers| then t
    else
      ConsumerStays(t, cap, k);
      Sweep(Step(t, cap, Consumer(k)), cap, k + 1)
  }

  /** A round: the producer's slice, then every consumer's.  `pick` gives the item count of each
      run, by run number. */
  function Round(t: Test, cap: nat, pick: nat -> U16): (r: Test)
    requires Invariant(t)
    ensures Invariant(r)
  {
    StepKeeps(t, cap, Producer(pick(t.runs)));
    Sweep(Step(t, cap, Producer(pick(t.runs))), cap, 0)
  }

  function Rounds(t: Test, cap: nat, pick: nat -> U16, k: nat): (r: Test)
    requires Invariant(t)
    ensures Invariant(r)
    decreases k
  {
    if k == 0 then t else Rounds(Round(t, cap, pick), cap, pick, k - 1)
  }

  predicate All(t: Test, p: ConsumerPoint) {
    forall j | 0 <= j < |t.consumers| :: t.consumers[j] == p
  }

  /** The producer is about to reset and every consumer is in its wait loop. */
  predicate AtStart(t: Test) {
    Invariant(t) && t.producer == Top && All(t, Waiting) && t.consumers != []
  }

  /** The handshake is done. */
  predicate Started(t: Test) {
    Invariant(t) && t.producer == AwaitReady && t.ready && t.queue == [] && All(t, Polling) && t.consumers != []
  }

  predicate Going(t: Test) {
    && Invariant(t) && (t.producer == Blocked || t.producer == Draining) && t.consumers != []
    && (t.queue != [] || !t.done ==> All(t, Polling))
  }

  // ---- The consumers' part of a round ----

  lemma {:induction false} SweepWakes(t: Test, cap: nat, k: nat)
    requires Invariant(t) && k <= |t.consumers| && !t.done && t.queue == []
    requires forall j | 0 <= j < k :: t.consumers[j] == Polling
    requires forall j | k <= j < |t.consumers| :: t.consumers[j] == Waiting
    ensures var r := Sweep(t, cap, k);
            All(r, Polling) && r.queue == [] && r.ready == (t.ready || k < |t.consumers|)
    decreases |t.consumers| - k
  {
    if k < |t.consumers| {
      StepKeeps(t, cap, Consumer(k));
      SweepWakes(Step(t, cap, Consumer(k)), cap, k + 1);
    }
  }

  lemma {:induction false} SweepRests(t: Test, cap: nat, k: nat)
    requires Invariant(t) && k <= |t.consumers| && t.done && t.queue == []
    requires forall j | 0 <= j < k :: t.consumers[j] == Waiting
    ensures var r := Sweep(t, cap, k);
            All(r, Waiting) && r.queue == [] && r.received == t.received && r.recv == t.recv && r.recvSum == t.recvSum
    decreases |t.consumers| - k
  {
    if k < |t.consumers| {
      StepKeeps(t, cap, Consumer(k));
      SweepRests(Step(t, cap, Consumer(k)), cap, k + 1);
    }
  }

  lemma {:induction false} SweepPops(t: Test, cap: nat, k: nat)
    requires Invariant(t) && k <= |t.consumers| && t.recv + |t.queue| == t.sent
    requires forall j | k <= j < |t.consumers| :: t.consumers[j] == Polling
    requires t.queue != [] || !t.done ==> All(t, Polling)
    ensures var r := Sweep(t, cap, k);
            && (r.queue != [] || !r.done ==> All(r, Polling))
            && (if k < |t.consumers| && t.queue != [] then r.recv > t.recv else r.recv >= t.recv)
    decreases |t.consumers| - k
  {
    if k < |t.consumers| {
      var u := Step(t, cap, Consumer(k));
      StepKeeps(t, cap, Consumer(k));
      CountsAgree(u);
      SweepPops(u, cap, k + 1);
    }
  }

  lemma CountsAgree(t: Test)
    requires Invariant(t)
    ensures t.recv + |t.queue| == t.sent
  {
    assert |t.received + t.queue| == t.sent;
  }

  // ---- The producer's part of a round ----

  /** Where the enqueue loop can stop, and what it leaves alone. */
  predicate Stopped(t: Test, u: Test) {
    && u.consumers == t.consumers && u.recv == t.recv && u.received == t.received && u.recvSum == t.recvSum
    && u.runs == t.runs && u.total == t.total && u.ready == t.ready
    && (u.producer == Blocked || u.producer == Draining ==> u.queue != [])
    && (u.producer == Top ==> u.queue == [] && u.done && u.sent == u.total)
    && u.producer != AwaitReady
  }

  lemma {:induction false} EnqueueStops(t: Test, cap: nat)
    requires Exact(t) && t.sent == t.i <= t.total && t.seqNo == t.sent && !t.done && cap > 0
    ensures Stopped(t, Enqueue(t, cap))
    decreases t.total - t.i, 1
  {
    hide Sum, Numbers;
    if t.i < t.total {
      OfferStops(t.(seqNo := t.seqNo + 1, item := t.sent + 1), cap);
    } else {
      DrainKeeps(t.(done := true));
    }
  }

  lemma {:induction false} OfferStops(t: Test, cap: nat)
    requires Exact(t) && t.sent == t.i < t.total && t.seqNo == t.item == t.sent + 1 && !t.done && cap > 0
    ensures Stopped(t, Offer(t, cap))
    decreases t.total - t.i, 0
  {
    hide Sum, Numbers;
    if |t.queue| < cap {
      OfferKeepsExact(t);
      EnqueueStops(t.(queue := t.queue + [t.item], sent := t.i + 1, sentSum := t.sentSum + t.item, i := t.i + 1), cap);
    }
  }

  // ---- Progress ----

  /** After the reset, one round completes the handshake. */
  lemma FirstRound(t: Test, cap: nat, pick: nat -> U16)
    requires AtStart(t)
    ensures Started(Round(t, cap, pick)) && Round(t, cap, pick).runs == t.runs + 1
  {
    StepKeeps(t, cap, Producer(pick(t.runs)));
    SweepWakes(Step(t, cap, Producer(pick(t.runs))), cap, 0);
  }

  /** The producer's slice of a round in progress. */
  lemma SliceStops(t: Test, cap: nat, p: U16)
    requires (Started(t) || Going(t)) && cap > 0
    ensures var u := Step(t, cap, Producer(p));
            Invariant(u) && Stopped(t.(total := if Started(t) then p else t.total), u)
  {
    StepKeeps(t, cap, Producer(p));
    match t.producer {
      case AwaitReady => EnqueueStops(t.(total := p, i := 0), cap);
      case Blocked => OfferStops(t, cap);
      case Draining => DrainKeeps(t);
    }
  }

  /** After the handshake, every round ends the run or makes a consumer receive an item. */
  lemma NextRound(t: Test, cap: nat, pick: nat -> U16)
    requires (Started(t) || Going(t)) && cap > 0
    ensures var r := Round(t, cap, pick);
            && r.runs == t.runs && r.total == (if Started(t) then pick(t.runs) else t.total)
            && (Complete(r) || (Going(r) && t.recv < r.recv <= r.total))
  {
    var u := Step(t, cap, Producer(pick(t.runs)));
    SliceStops(t, cap, pick(t.runs));
    hide Step, Sum, Numbers;
    CountsAgree(t);
    CountsAgree(u);
    CountsAgree(Sweep(u, cap, 0));
    if u.producer == Top {
      SweepRests(u, cap, 0);
      assert u.received + u.queue == u.received;
    } else {
      SweepPops(u, cap, 0);
    }
  }

  /** The run is over and everything sent was received. */
  predicate Complete(t: Test) {
    AtStart(t) && t.received == Numbers(t.total)
  }

  /** At most `bound` rounds lead from `t` to `u`. */
  ghost predicate Leads(t: Test, u: Test, cap: nat, pick: nat -> U16, bound: nat) {
    Invariant(t) && exists k: nat :: k <= bound && u == Rounds(t, cap, pick, k)
  }

  lemma LeadsSelf(t: Test, cap: nat, pick: nat -> U16)
    requires Invariant(t)
    ensures Leads(t, t, cap, pick, 0)
  {
    assert t == Rounds(t, cap, pick, 0);
  }

  lemma LeadsOneRound(t: Test, cap: nat, pick: nat -> U16)
    requires Invariant(t)
    ensures Leads(t, Round(t, cap, pick), cap, pick, 1)
  {
    hide Round;
    assert Rounds(t, cap, pick, 0 + 1) == Rounds(Round(t, cap, pick), cap, pick, 0) == Round(t, cap, pick);
  }

  lemma LeadsOn(t: Test, u: Test, v: Test, cap: nat, pick: nat -> U16, a: nat, b: nat)
    requires Leads(t, u, cap, pick, a) && Leads(u, v, cap, pick, b)
    ensures Leads(t, v, cap, pick, a + b)
  {
    hide Rounds, Invariant;
    var i: nat :| i <= a && u == Rounds(t, cap, pick, i);
    var j: nat :| j <= b && v == Rounds(u, cap, pick, j);
    RoundsAdd(t, cap, pick, i, j);
    assert v == Rounds(t, cap, pick, i + j);
  }

  lemma {:induction false} RoundsAdd(t: Test, cap: nat, pick: nat -> U16, a: nat, b: nat)
    requires Invariant(t)
    ensures Rounds(t, cap, pick, a + b) == Rounds(Rounds(t, cap, pick, a), cap, pick, b)
    decreases a
  {
    hide Round, Invariant;
    if a > 0 {
      RoundsAdd(Round(t, cap, pick), cap, pick, a - 1, b);
    }
  }

  /** A run in progress ends within as many rounds as items are still to be received, plus one. */
  lemma {:induction false} GoingCompletes(t: Test, cap: nat, pick: nat -> U16)
    requires Going(t) && cap > 0 && t.recv <= t.total
    ensures exists u :: Leads(t, u, cap, pick, t.total - t.recv + 1)
                        && Complete(u) && u.runs == t.runs && u.total == t.total
    decreases t.total - t.recv
  {
    NextRound(t, cap, pick);
    LeadsOneRound(t, cap, pick);
    hide Round, Complete, Leads;
    var r := Round(t, cap, pick);
    if Complete(r) {
      LeadsSelf(r, cap, pick);
      LeadsOn(t, r, r, cap, pick, 1, 0);
      LeadsLonger(t, r, cap, pick, 1, t.total - t.recv + 1);
    } else {
      GoingCompletes(r, cap, pick);
      var u :| Leads(r, u, cap, pick, r.total - r.recv + 1) && Complete(u) && u.runs == r.runs && u.total == r.total;
      LeadsOn(t, r, u, cap, pick, 1, r.total - r.recv + 1);
      LeadsLonger(t, u, cap, pick, 1 + (r.total - r.recv + 1), t.total - t.recv + 1);
    }
  }

  lemma LeadsLonger(t: Test, u: Test, cap: nat, pick: nat -> U16, a: nat, b: nat)
    requires Leads(t, u, cap, pick, a) && a <= b
    ensures Leads(t, u, cap, pick, b)
  {
    hide Rounds, Invariant;
  }

  /** Leaving the totals aside, every run completes, for any number of consumers, any item count
      and any capacity: within as many rounds as items, plus three, the producer is back at its
      reset, everything sent was received, and every consumer is in its wait loop again, so that
      the next handshake works. */
  lemma RoundsComplete(t: Test, cap: nat, pick: nat -> U16)
    requires AtStart(t) && cap > 0
    ensures exists u :: Leads(t, u, cap, pick, pick(t.runs + 1) + 3)
                        && Complete(u) && u.runs == t.runs + 1 && u.total == pick(u.runs)
  {
    FirstRound(t, cap, pick);
    LeadsOneRound(t, cap, pick);
    var r1 := Round(t, cap, pick);
    NextRound(r1, cap, pick);
    LeadsOneRound(r1, cap, pick);
    hide Round, Complete, AtStart, Started, Leads;
    var r2 := Round(r1, cap, pick);
    LeadsOn(t, r1, r2, cap, pick, 1, 1);
    if Complete(r2) {
      LeadsLonger(t, r2, cap, pick, 2, r2.total + 3);
    } else {
      GoingCompletes(r2, cap, pick);
      var u :| Leads(r2, u, cap, pick, r2.total - r2.recv + 1) && Complete(u)
               && u.runs == r2.runs && u.total == r2.total;
      LeadsOn(t, r2, u, cap, pick, 2, r2.total - r2.recv + 1);
      LeadsLonger(t, u, cap, pick, 2 + (r2.total - r2.recv + 1), r2.total + 3);
    }
  }

  lemma CompleteIsStart(t: Test)
    requires Complete(t)
    ensures AtStart(t)
  {
  }

  lemma BootIsAtStart(n: nat)
    requires n > 0
    ensures AtStart(Boot(n))
  {
  }

  // ---- Rounds as a cycle of slices ----

  /** The turn of task j: the producer's is 0. */
  function TurnFor(j: nat, t: Test, pick: nat -> U16): Turn {
    if j == 0 then Producer(pick(t.runs)) else Consumer(j - 1)
  }

  function Following(j: nat, n: nat): (k: nat)
    requires j < n
    ensures k < n
  {
    if j + 1 == n then 0 else j + 1
  }

  function Slice(t: Test, j: nat, cap: nat, pick: nat -> U16): (u: Test)
    requires Invariant(t)
    ensures Invariant(u)
  {
    StepKeeps(t, cap, TurnFor(j, t, pick));
    Step(t, cap, TurnFor(j, t, pick))
  }

  /** k slices in cyclic order, from task j on. */
  function Cycle(t: Test, j: nat, n: nat, k: nat, cap: nat, pick: nat -> U16): Test
    requires Invariant(t) && j < n
    decreases k
  {
    if k == 0 then t else Cycle(Slice(t, j, cap, pick), Following(j, n), n, k - 1, cap, pick)
  }

  lemma {:induction false} CycleSweeps(t: Test, j: nat, n: nat, k: nat, cap: nat, pick: nat -> U16)
    requires Invariant(t) && 0 < j < n == |t.consumers| + 1
    ensures Cycle(t, j, n, n - j + k, cap, pick) == Cycle(Sweep(t, cap, j - 1), 0, n, k, cap, pick)
    decreases n - j
  {
    hide Invariant, Step;
    ConsumerStays(t, cap, j - 1);
    var u := Slice(t, j, cap, pick);
    assert Sweep(t, cap, j - 1) == Sweep(u, cap, j);
    if j + 1 < n {
      CycleSweeps(u, j + 1, n, k, cap, pick);
    }
  }

  lemma {:induction false} CycleIsRounds(t: Test, n: nat, m: nat, cap: nat, pick: nat -> U16)
    requires Invariant(t) && n == |t.consumers| + 1 > 1
    ensures Cycle(t, 0, n, m * n, cap, pick) == Rounds(t, cap, pick, m)
    decreases m
  {
    hide Invariant, Sweep, Step;
    if m > 0 {
      assert m * n == 1 + (n - 1 + (m - 1) * n);
      var u, r := Slice(t, 0, cap, pick), Round(t, cap, pick);
      SliceSends(t, cap, pick(t.runs));
      CycleSweeps(u, 1, n, (m - 1) * n, cap, pick);
      CycleIsRounds(r, n, m - 1, cap, pick);
    }
  }
}
