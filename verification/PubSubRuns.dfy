/** Several tasks publishing to and processing the same topics: a callback may yield, so the loop
    over the slots in pubsub_process_topic is one step per slot, and so is each dequeue, publish,
    subscription and cancellation. */
module PubSubRuns {
  import opened Words
  import opened PubSubState

  /** A message taken from its topic's queue, and the activation of process_topic that took it. */
  datatype Taken = Taken(message: U16, task: nat)

  /** An activation busy with the n-th message taken from a topic, next at `slot`. */
  datatype Delivery = Delivery(topic: nat, name: string, n: nat, slot: nat)

  /** One callback: slot `slot`, for the n-th message taken from topic `topic`. */
  datatype Call = Call(topic: nat, n: nat, slot: nat, message: U16, task: nat)

  /** The registry with its history: what each topic accepted, what was taken from it, the
      activations under way and the callbacks made. */
  datatype System = System(reg: Registry, accepted: seq<seq<U16>>, taken: seq<seq<Taken>>, busy: map<nat, Delivery>,
                           calls: seq<Call>)

  datatype Event =
    | Create(name: string)
    | Publish(name: string, message: U16)
    | Subscribe(name: string, callback: nat, userData: nat)
    | Unsubscribe(id: int)
    | Dequeue(task: nat, name: string)
    | Visit(task: nat)

  predicate Formed(s: System) {
    && Sound(s.reg) && |s.accepted| == MAX_TOPICS && |s.taken| == MAX_TOPICS
    && (forall i | s.reg.count <= i < MAX_TOPICS :: s.accepted[i] == [] && s.taken[i] == [])
    && forall p | p in s.busy :: BusyFormed(s, p, s.busy[p])
  }

  predicate BusyFormed(s: System, p: nat, d: Delivery) {
    && d.topic < s.reg.count <= |s.reg.table| && s.reg.table[d.topic].name == d.name
    && d.topic < |s.taken| && d.n < |s.taken[d.topic]| && s.taken[d.topic][d.n].task == p
    && d.slot < MAX_SUBSCRIBERS
  }

  function DoPublish(s: System, name: string, m: U16): System
    requires Formed(s)
  {
    var i := Lookup(s.reg, name);
    var (r, ok) := PubSubState.Publish(s.reg, name, m);
    if ok then s.(reg := r, accepted := s.accepted[i := s.accepted[i] + [m]]) else s
  }

  /** The top of the loop: an idle activation takes the oldest message, if there is one. */
  function DoDequeue(s: System, p: nat, name: string): System
    requires Formed(s)
  {
    var i := Lookup(s.reg, name);
    if p in s.busy || i < 0 || s.reg.table[i].tail == s.reg.table[i].head then s
    else
      var t := s.reg.table[i];
      s.(reg := SetTopic(s.reg, i, Take(t)),
         taken := s.taken[i := s.taken[i] + [Taken(t.ring[t.tail], p)]],
         busy := s.busy[p := Delivery(i, name, |s.taken[i]|, 0)])
  }

  predicate Hears(slot: Slot, name: string) {
    slot.active && slot.topic == name
  }

  /** One turn of the loop over the slots. */
  function DoVisit(s: System, p: nat): System
    requires Formed(s)
  {
    if p !in s.busy then s
    else
      var d := s.busy[p];
      var call := Call(d.topic, d.n, d.slot, s.taken[d.topic][d.n].message, p);
      s.(calls := if Hears(s.reg.slots[d.slot], d.name) then s.calls + [call] else s.calls,
         busy := if d.slot + 1 == MAX_SUBSCRIBERS then s.busy - {p} else s.busy[p := d.(slot := d.slot + 1)])
  }

  function Step(s: System, e: Event): System
    requires Formed(s)
  {
    match e
    case Create(name) => s.(reg := CreateTopic(s.reg, name).0)
    case Publish(name, m) => DoPublish(s, name, m)
    case Subscribe(name, c, u) => s.(reg := PubSubState.Subscribe(s.reg, name, c, u).0)
    case Unsubscribe(id) => s.(reg := PubSubState.Unsubscribe(s.reg, id).0)
    case Dequeue(p, name) => DoDequeue(s, p, name)
    case Visit(p) => DoVisit(s, p)
  }

  // ---- What a step keeps ----

  function Messages(t: seq<Taken>): (m: seq<U16>)
    ensures |m| == |t|
  {
    if t == [] then [] else Messages(t[..|t| - 1]) + [t[|t| - 1].message]
  }

  /** What a topic accepted is what was taken from it followed by what waits in its queue. */
  predicate Conserved(s: System) {
    Formed(s) && forall i | 0 <= i < MAX_TOPICS :: ConservedAt(s, i)
  }

  predicate ConservedAt(s: System, i: nat) {
    && i < |s.accepted| && i < |s.taken| && i < |s.reg.table| && RingOk(s.reg.table[i])
    && (i < s.reg.count ==> s.accepted[i] == Messages(s.taken[i]) + Queued(s.reg.table[i]))
  }

  /** Callbacks so far: made by the activation that took the message, and not again. */
  predicate CalledOnce(s: System) {
    && (forall c | c in s.calls :: CallFormed(s, c))
    && forall i, j | 0 <= i < j < |s.calls| :: !SameDelivery(s.calls[i], s.calls[j])
  }

  predicate SameDelivery(c: Call, d: Call) {
    c.topic == d.topic && c.n == d.n && c.slot == d.slot
  }

  predicate CallFormed(s: System, c: Call) {
    && c.topic < |s.taken| && c.n < |s.taken[c.topic]|
    && s.taken[c.topic][c.n] == Taken(c.message, c.task)
    && (c.task in s.busy && s.busy[c.task].topic == c.topic && s.busy[c.task].n == c.n ==> c.slot < s.busy[c.task].slot)
  }

  lemma RegistryStep(s: System, r: Registry)
    requires Conserved(s) && Sound(r) && s.reg.count <= r.count
    requires forall i | 0 <= i < s.reg.count :: r.table[i] == s.reg.table[i]
    requires forall i | s.reg.count <= i < r.count :: r.table[i].head == r.table[i].tail
    ensures Conserved(s.(reg := r))
  {
    forall i | 0 <= i < MAX_TOPICS ensures ConservedAt(s.(reg := r), i) {
      assert ConservedAt(s, i);
    }
    forall p | p in s.busy ensures BusyFormed(s.(reg := r), p, s.busy[p]) {
      assert BusyFormed(s, p, s.busy[p]);
    }
  }

  lemma CreatedIsEmpty(r: Registry, name: string)
    requires Sound(r)
    ensures var q := CreateTopic(r, name).0;
            forall i | r.count <= i < q.count :: q.table[i].head == q.table[i].tail
  {
  }

  lemma PublishStep(s: System, name: string, m: U16)
    requires Conserved(s)
    ensures Conserved(DoPublish(s, name, m))
  {
    hide Queued, Messages;
    var i, t := Lookup(s.reg, name), DoPublish(s, name, m);
    if i >= 0 && !IsFull(s.reg.table[i]) {
      PutAppends(s.reg.table[i], m);
      SameNamesKeep(s.reg, i, Put(s.reg.table[i], m));
      assert ConservedAt(s, i);
      assert s.accepted[i] + [m] == Messages(s.taken[i]) + (Queued(s.reg.table[i]) + [m]);
      assert t.reg == SetTopic(s.reg, i, Put(s.reg.table[i], m));
      assert ConservedAt(t, i);
      forall k | 0 <= k < MAX_TOPICS ensures ConservedAt(t, k) {
        assert ConservedAt(s, k);
      }
      forall p | p in s.busy ensures BusyFormed(t, p, s.busy[p]) {
        assert BusyFormed(s, p, s.busy[p]);
      }
    }
  }

  lemma MessagesSnoc(t: seq<Taken>, x: Taken)
    ensures Messages(t + [x]) == Messages(t) + [x.message]
  {
    assert (t + [x])[..|t|] == t;
  }

  lemma DequeueStep(s: System, p: nat, name: string)
    requires Conserved(s)
    ensures Conserved(DoDequeue(s, p, name))
  {
    hide Queued, Messages;
    var i, u := Lookup(s.reg, name), DoDequeue(s, p, name);
    if p !in s.busy && i >= 0 && s.reg.table[i].tail != s.reg.table[i].head {
      var t := s.reg.table[i];
      TakeRemovesFirst(t);
      MessagesSnoc(s.taken[i], Taken(t.ring[t.tail], p));
      SameNamesKeep(s.reg, i, Take(t));
      forall k | 0 <= k < MAX_TOPICS ensures ConservedAt(u, k) {
        assert ConservedAt(s, k);
      }
      forall q | q in u.busy ensures BusyFormed(u, q, u.busy[q]) {
        if q != p {
          assert BusyFormed(s, q, s.busy[q]);
        }
      }
    }
  }

  lemma VisitStep(s: System, p: nat)
    requires Conserved(s)
    ensures Conserved(DoVisit(s, p))
  {
    hide Queued, Messages;
    var u := DoVisit(s, p);
    forall k | 0 <= k < MAX_TOPICS ensures ConservedAt(u, k) {
      assert ConservedAt(s, k);
    }
    forall q | q in u.busy ensures BusyFormed(u, q, u.busy[q]) {
      assert BusyFormed(s, q, s.busy[q]);
    }
  }

  lemma SubscribedIsEmpty(r: Registry, name: string, c: nat, u: nat)
    requires Sound(r)
    ensures var q := PubSubState.Subscribe(r, name, c, u).0;
            && r.count <= q.count && (forall i | 0 <= i < r.count :: q.table[i] == r.table[i])
            && forall i | r.count <= i < q.count :: q.table[i].head == q.table[i].tail
  {
  }

  lemma StepConserves(s: System, e: Event)
    requires Conserved(s)
    ensures Conserved(Step(s, e))
  {
    hide ConservedAt, CreateTopic, PubSubState.Subscribe, DoPublish, DoDequeue, DoVisit;
    match e
    case Create(name) =>
      CreateKeeps(s.reg, name);
      CreatedIsEmpty(s.reg, name);
      RegistryStep(s, CreateTopic(s.reg, name).0);
    case Publish(name, m) =>
      PublishStep(s, name, m);
    case Subscribe(name, c, u) =>
      SubscribeKeeps(s.reg, name, c, u);
      SubscribedIsEmpty(s.reg, name, c, u);
      RegistryStep(s, PubSubState.Subscribe(s.reg, name, c, u).0);
    case Unsubscribe(id) =>
      UnsubscribeKeeps(s.reg, id);
      RegistryStep(s, PubSubState.Unsubscribe(s.reg, id).0);
    case Dequeue(p, name) =>
      DequeueStep(s, p, name);
    case Visit(p) =>
      VisitStep(s, p);
  }

  // ---- Every run ----

  function Start(r: Registry): System {
    System(r, seq(MAX_TOPICS, i => []), seq(MAX_TOPICS, i => []), map[], [])
  }

  /** pubsub_init. */
  predicate Initial(r: Registry) {
    && Shape(r) && r.count == 0 && r.highWater == 0 && !r.lock
    && (forall i | 0 <= i < MAX_TOPICS :: !r.table[i].lock && r.table[i].head == r.table[i].tail == 0)
    && forall k | 0 <= k < MAX_SUBSCRIBERS :: !r.slots[k].active
  }

  lemma StartConserves(r: Registry)
    requires Initial(r)
    ensures Conserved(Start(r)) && CalledOnce(Start(r))
  {
  }

  /** The system after the steps of any tasks in any order. */
  function Exec(s: System, es: seq<Event>): (t: System)
    requires Conserved(s)
    ensures Conserved(t)
    decreases |es|
  {
    if es == [] then s
    else
      StepConserves(s, es[0]);
      Exec(Step(s, es[0]), es[1..])
  }

  /** Whatever the interleaving, every topic has accepted exactly what was taken from it followed
      by what is queued, in that order. */
  lemma RunConserves(r: Registry, es: seq<Event>, i: nat)
    requires Initial(r) && i < MAX_TOPICS
    ensures Conserved(Start(r))
    ensures var s := Exec(Start(r), es);
            Sound(s.reg)
            && (i < s.reg.count ==> s.accepted[i] == Messages(s.taken[i]) + Queued(s.reg.table[i]))
  {
    StartConserves(r);
    assert ConservedAt(Exec(Start(r), es), i);
  }

  // ---- Callbacks ----

  lemma DequeueCalls(s: System, p: nat, name: string)
    requires Conserved(s) && CalledOnce(s)
    ensures CalledOnce(DoDequeue(s, p, name))
  {
    hide Queued, ConservedAt;
    var u := DoDequeue(s, p, name);
    forall c | c in u.calls ensures CallFormed(u, c) {
      assert CallFormed(s, c);
    }
  }

  lemma VisitCalls(s: System, p: nat)
    requires Conserved(s) && CalledOnce(s)
    ensures CalledOnce(DoVisit(s, p))
  {
    hide Queued, ConservedAt;
    var u := DoVisit(s, p);
    if p in s.busy {
      var d := s.busy[p];
      assert BusyFormed(s, p, d);
      forall c | c in u.calls ensures CallFormed(u, c) {
        assert c in s.calls ==> CallFormed(s, c);
      }
      forall i, j | 0 <= i < j < |u.calls| ensures !SameDelivery(u.calls[i], u.calls[j]) {
        assert CallFormed(s, s.calls[i]);
      }
    }
  }

  lemma StepCallsOnce(s: System, e: Event)
    requires Conserved(s) && CalledOnce(s)
    ensures CalledOnce(Step(s, e))
  {
    hide ConservedAt, CreateTopic, PubSubState.Subscribe, PubSubState.Unsubscribe, DoDequeue, DoVisit;
    match e
    case Dequeue(p, name) => DequeueCalls(s, p, name);
    case Visit(p) => VisitCalls(s, p);
    case _ =>
      var u := Step(s, e);
      assert u.calls == s.calls && u.taken == s.taken && u.busy == s.busy;
      forall c | c in u.calls ensures CallFormed(u, c) {
        assert CallFormed(s, c);
      }
  }

  /** No slot is ever called twice for one message, and every call is made by the activation that
      took the message. */
  lemma {:induction false} CallsAreOnce(s: System, es: seq<Event>)
    requires Conserved(s) && CalledOnce(s)
    ensures CalledOnce(Exec(s, es))
    decreases |es|
  {
    hide ConservedAt, BusyFormed, Sound, CalledOnce, Step;
    if es != [] {
      StepConserves(s, es[0]);
      StepCallsOnce(s, es[0]);
      CallsAreOnce(Step(s, es[0]), es[1..]);
    }
  }

  predicate HearsThroughout(s: System, es: seq<Event>, k: nat, name: string)
    requires Conserved(s)
    decreases |es|
  {
    && k < MAX_SUBSCRIBERS && Hears(s.reg.slots[k], name)
    && (es == [] ||
        (StepConserves(s, es[0]);
         HearsThroughout(Step(s, es[0]), es[1..], k, name)))
  }

  predicate WasCalled(s: System, i: nat, n: nat, k: nat) {
    exists c :: c in s.calls && c.topic == i && c.n == n && c.slot == k
  }

  /** The message's activation has not come to the slot yet. */
  predicate Coming(s: System, i: nat, n: nat, k: nat)
    requires i < |s.taken| && n < |s.taken[i]|
  {
    var p := s.taken[i][n].task;
    p in s.busy && s.busy[p].topic == i && s.busy[p].n == n && s.busy[p].slot <= k
  }

  predicate Served(s: System, i: nat, n: nat, k: nat) {
    i < |s.taken| && (n < |s.taken[i]| ==> WasCalled(s, i, n, k) || Coming(s, i, n, k))
  }

  lemma StepServes(s: System, e: Event, i: nat, n: nat, k: nat)
    requires Conserved(s) && i < s.reg.count && k < MAX_SUBSCRIBERS && Hears(s.reg.slots[k], s.reg.table[i].name)
    requires Served(s, i, n, k)
    ensures Served(Step(s, e), i, n, k)
  {
    hide ConservedAt, CreateTopic, PubSubState.Subscribe, PubSubState.Unsubscribe, PubSubState.Publish;
    hide Queued, Messages;
    var t := Step(s, e);
    if n < |s.taken[i]| {
      if WasCalled(s, i, n, k) {
        var c :| c in s.calls && c.topic == i && c.n == n && c.slot == k;
        assert c in t.calls;
      } else if e.Visit? && e.task == s.taken[i][n].task {
        var d := s.busy[e.task];
        assert BusyFormed(s, e.task, d);
        if d.slot == k {
          var call := Call(d.topic, d.n, d.slot, s.taken[d.topic][d.n].message, e.task);
          assert call in t.calls;
        }
      }
    }
  }

  lemma StepKeepsTopics(s: System, e: Event, i: nat)
    requires Conserved(s) && i < s.reg.count
    ensures Conserved(Step(s, e)) && i < Step(s, e).reg.count
    ensures Step(s, e).reg.table[i].name == s.reg.table[i].name
  {
    StepConserves(s, e);
    hide ConservedAt, Queued, Messages;
  }

  /** A subscriber that stays subscribed hears every message taken from its topic from then on:
      once the activation that took it has gone past the slot, the call has been made. */
  lemma {:induction false} SubscriberHears(s: System, es: seq<Event>, i: nat, n: nat, k: nat)
    requires Conserved(s) && i < s.reg.count && k < MAX_SUBSCRIBERS
    requires HearsThroughout(s, es, k, s.reg.table[i].name)
    requires Served(s, i, n, k)
    ensures Served(Exec(s, es), i, n, k)
    decreases |es|
  {
    hide ConservedAt, BusyFormed, Step, Served;
    if es != [] {
      StepConserves(s, es[0]);
      StepServes(s, es[0], i, n, k);
      StepKeepsTopics(s, es[0], i);
      SubscriberHears(Step(s, es[0]), es[1..], i, n, k);
    }
  }

  // ---- An activation takes a message and delivers it ----

  /** An idle activation takes the oldest waiting message of a known topic. */
  lemma DequeueTakes(s: System, p: nat, name: string)
    requires Conserved(s) && p !in s.busy && Lookup(s.reg, name) >= 0
    ensures var i, t := Lookup(s.reg, name), Step(s, Dequeue(p, name));
            var waiting := Queued(s.reg.table[i]);
            if waiting == [] then t == s
            else && t.taken == s.taken[i := s.taken[i] + [Taken(waiting[0], p)]]
                 && RingOk(t.reg.table[i]) && Queued(t.reg.table[i]) == waiting[1..]
                 && t.busy == s.busy[p := Delivery(i, name, |s.taken[i]|, 0)]
                 && t.calls == s.calls && t.accepted == s.accepted
  {
    hide Queued, ConservedAt, BusyFormed;
    TakeRemovesFirst(s.reg.table[Lookup(s.reg, name)]);
  }

  function VisitsBy(es: seq<Event>, p: nat): nat {
    if es == [] then 0 else (if es[0] == Visit(p) then 1 else 0) + VisitsBy(es[1..], p)
  }

  predicate NoDequeueBy(es: seq<Event>, p: nat) {
    forall i | 0 <= i < |es| :: !(es[i].Dequeue? && es[i].task == p)
  }

  lemma BusyMoves(s: System, e: Event, p: nat)
    requires Conserved(s) && !(e.Dequeue? && e.task == p)
    ensures var t := Step(s, e);
            if p !in s.busy then p !in t.busy
            else if e != Visit(p) then p in t.busy && t.busy[p] == s.busy[p]
            else if s.busy[p].slot == MAX_SUBSCRIBERS - 1 then p !in t.busy
            else p in t.busy && t.busy[p] == s.busy[p].(slot := s.busy[p].slot + 1)
  {
    hide ConservedAt, Queued, Messages, CreateTopic;
    hide PubSubState.Subscribe, PubSubState.Unsubscribe, PubSubState.Publish;
    if p in s.busy {
      assert BusyFormed(s, p, s.busy[p]);
    }
  }

  /** Once it has turned to all 32 slots, whatever happens in between, it is idle again. */
  lemma {:induction false} DeliveryEnds(s: System, es: seq<Event>, p: nat)
    requires Conserved(s) && NoDequeueBy(es, p)
    requires p in s.busy ==> VisitsBy(es, p) >= MAX_SUBSCRIBERS - s.busy[p].slot
    ensures p !in Exec(s, es).busy
    decreases |es|
  {
    hide ConservedAt, Step;
    if p in s.busy {
      assert BusyFormed(s, p, s.busy[p]);
    }
    if es != [] {
      hide BusyFormed;
      StepConserves(s, es[0]);
      BusyMoves(s, es[0], p);
      DeliveryEnds(Step(s, es[0]), es[1..], p);
    }
  }

  /** So a message that has been taken is delivered to every subscriber of its topic that stays. */
  lemma EveryoneIsCalled(s: System, es: seq<Event>, p: nat, k: nat)
    requires Conserved(s) && p in s.busy && NoDequeueBy(es, p) && s.busy[p].slot <= k < MAX_SUBSCRIBERS
    requires VisitsBy(es, p) >= MAX_SUBSCRIBERS - s.busy[p].slot
    requires HearsThroughout(s, es, k, s.busy[p].name)
    ensures WasCalled(Exec(s, es), s.busy[p].topic, s.busy[p].n, k)
  {
    hide ConservedAt, Exec, HearsThroughout;
    var d := s.busy[p];
    assert BusyFormed(s, p, d);
    SubscriberHears(s, es, d.topic, d.n, k);
    DeliveryEnds(s, es, p);
    TakenStays(s, es, d.topic, d.n);
  }

  /** A subscription that is accepted fills its slot and touches nothing else of the run; a created
      topic is known under its stored name, unless the table was full. */
  lemma SubscribesAndCreates(s: System, name: string, callback: nat, userData: nat)
    requires Conserved(s)
    ensures var t := Step(s, Subscribe(name, callback, userData));
            var k := PubSubState.Subscribe(s.reg, name, callback, userData).1;
            && t == s.(reg := t.reg) && k < MAX_SUBSCRIBERS
            && (k >= 0 ==> && !s.reg.slots[k].active && Hears(t.reg.slots[k], if |name| <= 31 then name else name[..31])
                           && t.reg.slots[k].callback == callback && t.reg.slots[k].userData == userData)
    ensures var t := Step(s, Create(name));
            && t == s.(reg := t.reg) && t.reg.slots == s.reg.slots
            && (s.reg.count < 16 ==> Lookup(t.reg, if |name| <= 31 then name else name[..31]) >= 0)
  {
    SubscribeKeeps(s.reg, name, callback, userData);
    CreateKeeps(s.reg, name);
    hide ConservedAt, BusyFormed, CreateTopic, Lookup, PubSubState.Subscribe;
  }

  /** A message is published and an idle activation takes it. */
  function Dispatched(s: System, name: string, m: U16, p: nat): (t: System)
    requires Conserved(s)
    ensures Conserved(t)
  {
    StepConserves(s, Publish(name, m));
    StepConserves(Step(s, Publish(name, m)), Dequeue(p, name));
    Step(Step(s, Publish(name, m)), Dequeue(p, name))
  }

  /** From publish to callback: a message published to a topic with nothing waiting, and taken, is
      delivered to every subscriber that stays, whatever the other tasks do meanwhile. */
  lemma PublishedIsCalled(s: System, name: string, m: U16, p: nat, es: seq<Event>, k: nat)
    requires Conserved(s) && p !in s.busy && Lookup(s.reg, name) >= 0 && Queued(s.reg.table[Lookup(s.reg, name)]) == []
    requires NoDequeueBy(es, p) && VisitsBy(es, p) >= 32 && k < MAX_SUBSCRIBERS
    requires HearsThroughout(Dispatched(s, name, m, p), es, k, name)
    ensures var i, t := Lookup(s.reg, name), Exec(Dispatched(s, name, m, p), es);
            var n := |s.taken[i]|;
            && i < |t.taken| && n < |t.taken[i]| && t.taken[i][n] == Taken(m, p) && WasCalled(t, i, n, k)
  {
    hide ConservedAt, BusyFormed, Exec, HearsThroughout, Queued, NoDequeueBy, VisitsBy;
    var i := Lookup(s.reg, name);
    PublishGives(s.reg, name, m);
    var u := Step(s, Publish(name, m));
    StepConserves(s, Publish(name, m));
    SameNamesKeep(s.reg, i, u.reg.table[i]);
    DequeueTakes(u, p, name);
    var t := Dispatched(s, name, m, p);
    hide Step, Dispatched, WasCalled;
    EveryoneIsCalled(t, es, p, k);
    TakenStays(t, es, i, |s.taken[i]|);
  }

  /** What has been taken stays recorded, and the calls made stay made. */
  lemma {:induction false} TakenStays(s: System, es: seq<Event>, i: nat, n: nat)
    requires Conserved(s) && i < |s.taken| && n < |s.taken[i]|
    ensures var t := Exec(s, es);
            i < |t.taken| && n < |t.taken[i]| && t.taken[i][n] == s.taken[i][n] && s.calls <= t.calls
    decreases |es|
  {
    hide ConservedAt, BusyFormed, Step;
    if es != [] {
      StepConserves(s, es[0]);
      StepRecords(s, es[0], i, n);
      TakenStays(Step(s, es[0]), es[1..], i, n);
    }
  }

  lemma StepRecords(s: System, e: Event, i: nat, n: nat)
    requires Conserved(s) && i < |s.taken| && n < |s.taken[i]|
    ensures var t := Step(s, e);
            i < |t.taken| && n < |t.taken[i]| && t.taken[i][n] == s.taken[i][n] && s.calls <= t.calls
  {
    hide ConservedAt, Queued, Messages, CreateTopic;
    hide PubSubState.Subscribe, PubSubState.Unsubscribe, PubSubState.Publish;
    if e.Visit? && e.task in s.busy {
      assert BusyFormed(s, e.task, s.busy[e.task]);
    }
  }

  // ---- After a cancellation ----

  /** No subscription of the run is given slot k. */
  predicate NeverFilled(s: System, es: seq<Event>, k: nat)
    requires Conserved(s)
    decreases |es|
  {
    es == [] ||
    ((es[0].Subscribe? ==> PubSubState.Subscribe(s.reg, es[0].name, es[0].callback, es[0].userData).1 != k)
     && (StepConserves(s, es[0]);
         NeverFilled(Step(s, es[0]), es[1..], k)))
  }

  lemma StepKeepsSilent(s: System, e: Event, k: nat)
    requires Conserved(s) && k < MAX_SUBSCRIBERS && !s.reg.slots[k].active
    requires e.Subscribe? ==> PubSubState.Subscribe(s.reg, e.name, e.callback, e.userData).1 != k
    ensures var t := Step(s, e);
            && Shape(t.reg) && !t.reg.slots[k].active && s.calls <= t.calls
            && forall i | |s.calls| <= i < |t.calls| :: t.calls[i].slot != k
  {
    hide ConservedAt, BusyFormed, Queued, Messages, CreateTopic, PubSubState.Subscribe, PubSubState.Unsubscribe;
    StepConserves(s, e);
    match e
    case Create(name) => CreateKeeps(s.reg, name);
    case Subscribe(name, c, u) => SubscribeKeeps(s.reg, name, c, u);
    case Unsubscribe(id) => UnsubscribeClears(s.reg, id);
    case Visit(p) =>
      if p in s.busy {
        assert BusyFormed(s, p, s.busy[p]);
      }
    case _ =>
  }

  /** From a cancellation on, whatever messages are under way, the slot is not called any more until
      a subscription is given it. */
  lemma {:induction false} InactiveIsSilent(s: System, es: seq<Event>, k: nat)
    requires Conserved(s) && k < MAX_SUBSCRIBERS && !s.reg.slots[k].active && NeverFilled(s, es, k)
    ensures var t := Exec(s, es);
            s.calls <= t.calls && forall i | |s.calls| <= i < |t.calls| :: t.calls[i].slot != k
    decreases |es|
  {
    hide ConservedAt, BusyFormed, Step;
    if es != [] {
      StepConserves(s, es[0]);
      StepKeepsSilent(s, es[0], k);
      InactiveIsSilent(Step(s, es[0]), es[1..], k);
    }
  }

  lemma UnsubscribedIsSilent(s: System, es: seq<Event>, k: nat)
    requires Conserved(s) && k < MAX_SUBSCRIBERS && NeverFilled(s, [Unsubscribe(k)] + es, k)
    ensures var t := Exec(s, [Unsubscribe(k)] + es);
            s.calls <= t.calls && forall i | |s.calls| <= i < |t.calls| :: t.calls[i].slot != k
  {
    var e := Unsubscribe(k);
    hide ConservedAt, BusyFormed;
    StepConserves(s, e);
    UnsubscribeClears(s.reg, k);
    assert ([e] + es)[1..] == es && ([e] + es)[0] == e;
    InactiveIsSilent(Step(s, e), es, k);
  }

  // ---- The registry over runs ----

  predicate ShortNames(e: Event) {
    match e
    case Create(name) => |name| < MAX_TOPIC_NAME
    case Subscribe(name, c, u) => |name| < MAX_TOPIC_NAME
    case _ => true
  }

  lemma StepRegistry(s: System, e: Event)
    requires Conserved(s)
    ensures s.reg.highWater <= Step(s, e).reg.highWater
    ensures UniqueNames(s.reg) && ShortNames(e) ==> UniqueNames(Step(s, e).reg)
  {
    hide ConservedAt, Queued, Messages, CreateTopic, PubSubState.Subscribe;
    match e
    case Create(name) =>
      CreateKeeps(s.reg, name);
      if UniqueNames(s.reg) {
        CreateKeepsUnique(s.reg, name);
      }
    case Subscribe(name, c, u) => SubscribeKeeps(s.reg, name, c, u);
    case _ =>
  }

  /** As long as every name has at most 31 characters, topic names stay unique. */
  lemma {:induction false} NamesStayUnique(s: System, es: seq<Event>)
    requires Conserved(s) && UniqueNames(s.reg) && forall i | 0 <= i < |es| :: ShortNames(es[i])
    ensures UniqueNames(Exec(s, es).reg)
    decreases |es|
  {
    hide ConservedAt, BusyFormed, Step;
    if es != [] {
      StepConserves(s, es[0]);
      StepRegistry(s, es[0]);
      NamesStayUnique(Step(s, es[0]), es[1..]);
    }
  }

  /** The high-water mark never falls: once all 32 slots have been used, every later subscription
      is refused, even after everyone has unsubscribed. */
  lemma {:induction false} SlotsRunOut(s: System, es: seq<Event>, name: string, callback: nat, userData: nat)
    requires Conserved(s) && s.reg.highWater == MAX_SUBSCRIBERS
    ensures PubSubState.Subscribe(Exec(s, es).reg, name, callback, userData).1 == -1
    decreases |es|
  {
    hide ConservedAt, BusyFormed, Step;
    if es != [] {
      StepConserves(s, es[0]);
      StepRegistry(s, es[0]);
      SlotsRunOut(Step(s, es[0]), es[1..], name, callback, userData);
    }
  }
}
