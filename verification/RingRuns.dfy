/** Several ring queues sharing ringq_total_pushed and ringq_total_popped: exactly when their
    comparison stops the program. */
module RingRuns {
  import opened Words
  import opened RingQueue

  datatype Op = DoPush(q: nat, v: U16) | DoPop(q: nat) | DoInit(q: nat)

  datatype World = World(queues: seq<seq<U16>>, totals: Totals)

  function Apply(w: World, op: Op): World {
    if w.totals.halted || op.q >= |w.queues| then w
    else
      var c := w.queues[op.q];
      match op
      case DoPush(q, v) => World(w.queues[q := Pushed(c, v)], TotalsAfterPush(w.totals, c))
      case DoPop(q) => World(w.queues[q := Popped(c)], TotalsAfterPop(w.totals, c))
      case DoInit(q) => w.(queues := w.queues[q := []])
  }

  function Exec(w: World, ops: seq<Op>): World
    decreases |ops|
  {
    if ops == [] then w else Exec(Apply(w, ops[0]), ops[1..])
  }

  // ---- The queues alone, with their true counts ----

  /** The same queues without the instrumentation, and how many words have been pushed and popped. */
  datatype Plain = Plain(queues: seq<seq<U16>>, pushes: nat, pops: nat)

  /** The operation pushes, or pops, a word. */
  predicate Pushes(p: Plain, op: Op) {
    op.DoPush? && op.q < |p.queues| && !Full(p.queues[op.q])
  }

  predicate Pops(p: Plain, op: Op) {
    op.DoPop? && op.q < |p.queues| && p.queues[op.q] != []
  }

  function PlainApply(p: Plain, op: Op): Plain {
    if op.q >= |p.queues| then p
    else
      var c := p.queues[op.q];
      Plain(p.queues[op.q := if op.DoPush? then Pushed(c, op.v) else if op.DoPop? then Popped(c) else []],
            p.pushes + (if Pushes(p, op) then 1 else 0), p.pops + (if Pops(p, op) then 1 else 0))
  }

  function PlainExec(p: Plain, ops: seq<Op>): Plain
    decreases |ops|
  {
    if ops == [] then p else PlainExec(PlainApply(p, ops[0]), ops[1..])
  }

  /** The instrumented queues are the plain ones, and their totals the counts modulo 2^32. */
  predicate Shows(w: World, p: Plain) {
    w.queues == p.queues && w.totals == Totals(Wrap32(p.pushes), Wrap32(p.pops), false)
  }

  /** The comparison of the wrapped counts comes out wrong at this operation. */
  predicate Alarming(p: Plain, op: Op) {
    (Pushes(p, op) && Wrap32(p.pops) > Wrap32(p.pushes)) || (Pops(p, op) && Wrap32(p.pops + 1) > Wrap32(p.pushes))
  }

  lemma ApplyShows(w: World, p: Plain, op: Op)
    requires Shows(w, p)
    ensures Apply(w, op).totals.halted <==> Alarming(p, op)
    ensures !Alarming(p, op) ==> Shows(Apply(w, op), PlainApply(p, op))
  {
    hide Full, Pushed, Popped, Wrap32;
    WrapSum(p.pushes, 1);
    WrapSum(p.pops, 1);
  }

  lemma {:induction false} HaltedStays(w: World, ops: seq<Op>)
    requires w.totals.halted
    ensures Exec(w, ops) == w
    decreases |ops|
  {
    if ops != [] {
      HaltedStays(w, ops[1..]);
    }
  }

  predicate Meets(p: Plain, ops: seq<Op>) {
    exists k | 0 <= k < |ops| :: Alarming(PlainExec(p, ops[..k]), ops[k])
  }

  lemma MeetsUnfolds(p: Plain, ops: seq<Op>)
    ensures Meets(p, ops) <==> ops != [] && (Alarming(p, ops[0]) || Meets(PlainApply(p, ops[0]), ops[1..]))
  {
    hide Alarming, PlainApply;
    if ops != [] {
      var p1, rest := PlainApply(p, ops[0]), ops[1..];
      assert PlainExec(p, ops[..0]) == p;
      forall k | 0 <= k < |rest| ensures PlainExec(p, ops[..k + 1]) == PlainExec(p1, rest[..k]) {
        assert ops[..k + 1][1..] == rest[..k];
      }
      if Alarming(p, ops[0]) {
        assert Alarming(PlainExec(p, ops[..0]), ops[0]);
      }
      if Meets(p1, rest) {
        var k :| 0 <= k < |rest| && Alarming(PlainExec(p1, rest[..k]), rest[k]);
        assert Alarming(PlainExec(p, ops[..k + 1]), ops[k + 1]);
      }
      if Meets(p, ops) && !Alarming(p, ops[0]) {
        var k :| 0 <= k < |ops| && Alarming(PlainExec(p, ops[..k]), ops[k]);
        assert Alarming(PlainExec(p1, rest[..k - 1]), rest[k - 1]);
      }
    }
  }

  /** Over every run of pushes, pops and re-initialisations on any number of queues, the program
      stops if and only if some operation of the run meets a wrong comparison of the true counts
      modulo 2^32. */
  lemma {:induction false} HaltsExactly(w: World, p: Plain, ops: seq<Op>)
    requires Shows(w, p)
    ensures Exec(w, ops).totals.halted <==> Meets(p, ops)
    ensures !Exec(w, ops).totals.halted ==> Shows(Exec(w, ops), PlainExec(p, ops))
    decreases |ops|
  {
    hide Alarming, Apply, PlainApply, Meets;
    MeetsUnfolds(p, ops);
    if ops != [] {
      ApplyShows(w, p, ops[0]);
      if Alarming(p, ops[0]) {
        HaltedStays(Apply(w, ops[0]), ops[1..]);
      } else {
        HaltsExactly(Apply(w, ops[0]), PlainApply(p, ops[0]), ops[1..]);
      }
    }
  }

  /** While fewer than 2^32 words lie between the counts, the comparison is wrong exactly when the
      pushes have wrapped more often than the pops, this one included. */
  lemma AlarmBetweenWraps(p: Plain, op: Op)
    requires p.pops <= p.pushes < p.pops + 0x1_0000_0000 && (Pops(p, op) ==> p.pops < p.pushes)
    ensures Alarming(p, op)
            <==> || (Pushes(p, op) && p.pushes / 0x1_0000_0000 > p.pops / 0x1_0000_0000)
                 || (Pops(p, op) && p.pushes / 0x1_0000_0000 > (p.pops + 1) / 0x1_0000_0000)
  {
    hide Pushes, Pops;
  }

  /** So after the push that wraps the total, the next counted operation stops the program unless
      it is the pop that wraps the other total too, the one word in flight. */
  lemma AfterTheWrap(p: Plain, op: Op)
    requires p.pops < p.pushes < p.pops + 0x1_0000_0000 && p.pushes % 0x1_0000_0000 == 0
    requires Pushes(p, op) || Pops(p, op)
    ensures Alarming(p, op) <==> Pushes(p, op) || p.pops + 1 < p.pushes
  {
    hide Pushes, Pops;
    AlarmBetweenWraps(p, op);
  }

  // ---- Below 2^32 pushes ----

  function InFlight(queues: seq<seq<U16>>): nat {
    if queues == [] then 0 else |queues[0]| + InFlight(queues[1..])
  }

  lemma {:induction false} InFlightUpdate(queues: seq<seq<U16>>, q: nat, c: seq<U16>)
    requires q < |queues|
    ensures InFlight(queues[q := c]) == InFlight(queues) - |queues[q]| + |c|
    ensures |queues[q]| <= InFlight(queues)
  {
    if q > 0 {
      assert queues[q := c][1..] == queues[1..][q - 1 := c];
      InFlightUpdate(queues[1..], q - 1, c);
    }
  }

  /** Everything queued has been counted as pushed and not yet as popped. */
  predicate Balanced(w: World) {
    w.totals.popped + InFlight(w.queues) <= w.totals.pushed
  }

  /** How many pushes of the run are accepted. */
  function Accepted(p: Plain, ops: seq<Op>): nat
    decreases |ops|
  {
    if ops == [] then 0
    else (if Pushes(p, ops[0]) then 1 else 0) + Accepted(PlainApply(p, ops[0]), ops[1..])
  }

  /** As long as fewer than 2^32 pushes have been accepted since the totals were zero, or since
      both have wrapped, no run of pushes, pops and re-initialisations on any number of queues
      stops the program. */
  lemma {:induction false} ChecksStaySilent(w: World, p: Plain, ops: seq<Op>)
    requires w.queues == p.queues && !w.totals.halted && Balanced(w)
    requires w.totals.pushed + Accepted(p, ops) < 0x1_0000_0000
    ensures var u := Exec(w, ops);
            && !u.totals.halted && Balanced(u) && u.queues == PlainExec(p, ops).queues
            && u.totals.pushed == w.totals.pushed + Accepted(p, ops)
    decreases |ops|
  {
    if ops != [] {
      var op := ops[0];
      if op.q < |w.queues| {
        InFlightUpdate(w.queues, op.q, Apply(w, op).queues[op.q]);
      }
      ChecksStaySilent(Apply(w, op), PlainApply(p, op), ops[1..]);
    }
  }

  // ---- Sharpness ----

  /** `k` times: push one word and pop it again. */
  function Pairs(k: nat): seq<Op> {
    if k == 0 then [] else [DoPush(0, 7), DoPop(0)] + Pairs(k - 1)
  }

  lemma {:induction false} PairsCount(p: Plain, k: nat, ops: seq<Op>)
    requires p.queues == [[]]
    ensures PlainExec(p, Pairs(k) + ops) == PlainExec(Plain([[]], p.pushes + k, p.pops + k), ops)
    decreases k
  {
    hide PlainApply, PlainExec;
    if k == 0 {
      assert Pairs(0) + ops == ops;
    } else {
      var rest := Pairs(k - 1) + ops;
      assert Pairs(k) + ops == [DoPush(0, 7)] + ([DoPop(0)] + rest);
      PushesSeven(p);
      ExecFirst(p, DoPush(0, 7), [DoPop(0)] + rest);
      PopsSeven(Plain([[7]], p.pushes + 1, p.pops));
      ExecFirst(Plain([[7]], p.pushes + 1, p.pops), DoPop(0), rest);
      PairsCount(Plain([[]], p.pushes + 1, p.pops + 1), k - 1, ops);
    }
  }

  lemma ExecFirst(p: Plain, op: Op, rest: seq<Op>)
    ensures PlainExec(p, [op] + rest) == PlainExec(PlainApply(p, op), rest)
  {
    hide PlainApply;
    assert ([op] + rest)[1..] == rest;
  }

  lemma PushesSeven(p: Plain)
    requires p.queues == [[]]
    ensures PlainApply(p, DoPush(0, 7)) == Plain([[7]], p.pushes + 1, p.pops)
  {
    var none: seq<U16> := [];
    assert none + [7] == [7] && [none][0 := [7]] == [[7]];
  }

  lemma PopsSeven(p: Plain)
    requires p.queues == [[7]]
    ensures PlainApply(p, DoPop(0)) == Plain([[]], p.pushes, p.pops + 1)
  {
    var one: seq<U16> := [7];
    assert one[1..] == [] && [one][0 := []] == [[]];
  }

  /** One queue used correctly from the start is stopped on the push after the one that wraps the
      total, if that one is still queued. */
  lemma ChecksFailAfterWrap()
    ensures Exec(World([[]], Totals(0, 0, false)), Pairs(0xFFFF_FFFF) + [DoPush(0, 7), DoPush(0, 7)]).totals.halted
  {
    hide Alarming, Exec, Pairs, Wrap32, Apply;
    var start, ops := Plain([[]], 0, 0), Pairs(0xFFFF_FFFF) + [DoPush(0, 7), DoPush(0, 7)];
    PairsCount(start, 0xFFFF_FFFF, [DoPush(0, 7)]);
    Unwrapped(0);
    HaltsExactly(World([[]], Totals(0, 0, false)), start, ops);
    var k := |ops| - 1;
    var mid := Plain([[]], 0xFFFF_FFFF, 0xFFFF_FFFF);
    assert ops[..k] == Pairs(0xFFFF_FFFF) + [DoPush(0, 7)];
    assert [DoPush(0, 7)][1..] == [];
    assert PlainExec(mid, [DoPush(0, 7)]) == PlainApply(mid, DoPush(0, 7));
    AfterTheWrap(PlainExec(start, ops[..k]), ops[k]);
  }
}
