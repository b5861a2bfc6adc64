/** The publish/subscribe manager's methods (src/pubsub.c). */
module PubSub {
  import opened Words
  import opened PubSubState
  import opened PubSubCalls

  class Manager {
    const topics: array<Topic>
    const subscribers: array<Slot>
    var topicCount: nat
    var subscriberCount: nat
    var lock: bool

    /** What the callbacks do: the publishes made by the last of the calls so far. */
    const react: seq<Call> -> seq<Post>
    var calls: seq<Call>
    /** The messages each topic has accepted, and those taken from it. */
    ghost var accepted: seq<seq<U16>>
    ghost var taken: seq<seq<U16>>

    function View(): Registry
      reads this, topics, subscribers
    {
      Registry(topics[..], topicCount, subscribers[..], subscriberCount, lock)
    }

    ghost predicate Accounted()
      reads this`accepted, this`taken, this`topicCount, topics
    {
      Accounts(topics[..], topicCount, accepted, taken)
    }

    ghost predicate Valid()
      reads this, topics, subscribers
    {
      Sound(View()) && Accounted()
    }

    ghost function State(): Pass
      reads this, topics, subscribers
    {
      Pass(View(), accepted, calls)
    }

    /** pubsub_init. */
    constructor (react: seq<Call> -> seq<Post>)
      ensures Valid() && View().count == 0 && View().highWater == 0 && calls == [] && this.react == react
      ensures fresh(topics) && fresh(subscribers)
    {
      topics := new Topic[MAX_TOPICS](_ => Topic("", seq(QUEUE_SIZE, _ => 0), 0, 0, false));
      subscribers := new Slot[MAX_SUBSCRIBERS](_ => Slot("", 0, 0, false));
      topicCount, subscriberCount, lock := 0, 0, false;
      this.react, calls := react, [];
      accepted, taken := seq(MAX_TOPICS, _ => []), seq(MAX_TOPICS, _ => []);
    }

    /** pubsub_get_topic: the index of the topic in place of a pointer to it, -1 for NULL. */
    method GetTopic(name: string) returns (i: int)
      requires Valid()
      ensures i == Lookup(View(), name)
    {
      i := 0;
      while i < topicCount
        invariant 0 <= i <= topicCount
        invariant LookupFrom(View().table, 0, topicCount, name) == LookupFrom(View().table, i, topicCount, name)
      {
        if topics[i].name == name {
          return;
        }
        i := i + 1;
      }
      i := -1;
    }

    /** A lock is only ever taken while it is free, so its busy wait never waits. */
    method LockTopic(i: nat)
      requires i < topics.Length && !topics[i].lock
      modifies topics
      ensures topics[..] == old(topics[..])[i := old(topics[i]).(lock := true)]
    {
      topics[i] := topics[i].(lock := true);
    }

    method UnlockTopic(i: nat)
      requires i < topics.Length && topics[i].lock
      modifies topics
      ensures topics[..] == old(topics[..])[i := old(topics[i]).(lock := false)]
    {
      topics[i] := topics[i].(lock := false);
    }

    method PublishMessage(name: string, m: U16) returns (ok: bool)
      requires Valid()
      modifies this`accepted, topics
      ensures Valid() && (View(), ok) == Publish(old(View()), name, m)
      ensures var r, i := old(View()), Lookup(old(View()), name);
              && (ok <==> i >= 0 && |Queued(r.table[i])| < QUEUE_SIZE - 1)
              && accepted == if ok then old(accepted)[i := old(accepted)[i] + [m]] else old(accepted)
    {
      hide Queued, Accounts, Lookup;
      ghost var r := View();
      AccountedShape();
      var i := GetTopic(name);
      if i < 0 {
        return false;
      }
      ghost var t := topics[i];
      PutAppends(t, m);
      LockTopic(i);
      var next := (topics[i].head + 1) % QUEUE_SIZE;
      if next == topics[i].tail {
        UnlockTopic(i);
        assert topics[..] == r.table;
        return false;
      }
      topics[i] := topics[i].(ring := topics[i].ring[topics[i].head := m]);
      topics[i] := topics[i].(head := next);
      UnlockTopic(i);
      PutKeepsAccounts(r.table, topicCount, accepted, taken, i, m);
      accepted := accepted[i := accepted[i] + [m]];
      assert topics[..] == r.table[i := Put(t, m)];
      SameNamesKeep(r, i, Put(t, m));
      return true;
    }

    method CreateNewTopic(name: string) returns (id: int)
      requires Valid()
      modifies this`topicCount, this`lock, topics
      ensures Valid() && (View(), id) == CreateTopic(old(View()), name)
    {
      ghost var r := View();
      CreateKeeps(r, name);
      if topicCount >= MAX_TOPICS {
        return -1;
      }
      var i := GetTopic(name);
      if i >= 0 {
        return i;
      }
      lock := true;
      i := topicCount;
      topics[i] := topics[i].(name := Stored(name), head := 0, tail := 0, lock := false);
      topicCount := topicCount + 1;
      lock := false;
      assert View() == CreateTopic(r, name).0;
      assert accepted[i] == taken[i] + Queued(topics[i]);
      return i;
    }

    method AddSubscriber(name: string, callback: nat, userData: nat) returns (id: int)
      requires Valid()
      modifies this`topicCount, this`subscriberCount, this`lock, topics, subscribers
      ensures Valid() && (View(), id) == Subscribe(old(View()), name, callback, userData)
      ensures id >= 0 ==> && subscribers[id].callback == callback && subscribers[id].userData == userData
                          && subscribers[id].active && subscribers[id].topic == Stored(name)
    {
      hide Queued, CreateTopic, Lookup, Accounted;
      ghost var r := View();
      SubscribeKeeps(r, name, callback, userData);
      if subscriberCount >= MAX_SUBSCRIBERS {
        return -1;
      }
      var k := GetTopic(name);
      if k < 0 {
        k := CreateNewTopic(name);
        if k < 0 {
          return -1;
        }
      }
      id := FillSlot(Slot(Stored(name), callback, userData, true));
    }

    /** The first free slot, under the manager's lock. */
    method FillSlot(slot: Slot) returns (id: int)
      requires Sound(View()) && Accounted()
      modifies this`subscriberCount, this`lock, subscribers
      ensures Accounted()
      ensures var r, i := old(View()), FreeSlot(old(View()).slots, 0);
              (View(), id) == if i == MAX_SUBSCRIBERS then (r, -1)
                              else (r.(slots := r.slots[i := slot],
                                       highWater := if i >= r.highWater then i + 1 else r.highWater), i as int)
    {
      hide Accounted, Sound;
      ghost var r := View();
      SoundShape(r);
      lock := true;
      var i := 0;
      while i < MAX_SUBSCRIBERS
        invariant 0 <= i <= MAX_SUBSCRIBERS && FreeSlot(subscribers[..], i) == FreeSlot(subscribers[..], 0)
        invariant View() == r.(lock := true) && Accounted()
      {
        if !subscribers[i].active {
          subscribers[i] := slot;
          if i >= subscriberCount {
            subscriberCount := i + 1;
          }
          lock := false;
          return i;
        }
        i := i + 1;
      }
      lock := false;
      return -1;
    }

    method RemoveSubscriber(id: int) returns (ok: bool)
      requires Valid()
      modifies this`lock, subscribers
      ensures Valid() && (View(), ok) == Unsubscribe(old(View()), id)
      ensures ok <==> 0 <= id < subscribers.Length && old(subscribers[id].active)
      ensures ok ==> !subscribers[id].active && subscribers[id].callback == 0 && subscribers[id].topic == ""
      ensures forall k | 0 <= k < subscribers.Length && !(ok && k == id) :: subscribers[k] == old(subscribers[k])
    {
      hide Queued;
      ghost var r := View();
      UnsubscribeKeeps(r, id);
      if id < 0 || id >= MAX_SUBSCRIBERS {
        return false;
      }
      lock := true;
      if subscribers[id].active {
        subscribers[id] := subscribers[id].(active := false);
        subscribers[id] := subscribers[id].(callback := 0);
        subscribers[id] := subscribers[id].(topic := "");
        lock := false;
        assert View() == Unsubscribe(r, id).0;
        return true;
      }
      lock := false;
      return false;
    }

    /** Zero for an unknown topic, otherwise the number of waiting messages. */
    method QueueSize(name: string) returns (size: nat)
      requires Valid()
      modifies topics
      ensures Valid() && View() == old(View())
      ensures var i := Lookup(View(), name); size == if i < 0 then 0 else |Queued(View().table[i])|
    {
      ghost var r := View();
      var i := GetTopic(name);
      if i < 0 {
        return 0;
      }
      QueuedAt(topics[i]);
      hide Queued;
      LockTopic(i);
      if topics[i].head >= topics[i].tail {
        size := topics[i].head - topics[i].tail;
      } else {
        size := QUEUE_SIZE - (topics[i].tail - topics[i].head);
      }
      UnlockTopic(i);
      assert topics[..] == r.table;
    }

    method ClearTopic(name: string)
      requires Valid()
      modifies this`accepted, topics
      ensures Valid() && View() == ClearQueue(old(View()), name)
      ensures var i := Lookup(View(), name); i >= 0 ==> Queued(topics[i]) == []
    {
      ghost var r := View();
      var i := GetTopic(name);
      if i < 0 {
        return;
      }
      LockTopic(i);
      topics[i] := topics[i].(head := 0);
      topics[i] := topics[i].(tail := 0);
      UnlockTopic(i);
      accepted := accepted[i := taken[i]];   // what is cleared counts as never accepted
      assert topics[..] == r.table[i := r.table[i].(head := 0, tail := 0)];
      SameNamesKeep(r, i, r.table[i].(head := 0, tail := 0));
    }

    /** pubsub_subscriber_count: as many as would be called. */
    method SubscriberCount(name: string) returns (count: nat)
      requires Valid()
      ensures count == |SlotCalls(View().slots, name, 0)|
    {
      hide Accounted;
      count := 0;
      var i := 0;
      while i < MAX_SUBSCRIBERS
        invariant 0 <= i <= MAX_SUBSCRIBERS && count == |SlotCalls(subscribers[..][..i], name, 0)|
      {
        assert subscribers[..][..i + 1][..i] == subscribers[..][..i];
        if subscribers[i].active && subscribers[i].topic == name {
          count := count + 1;
        }
        i := i + 1;
      }
      assert subscribers[..][..i] == subscribers[..];
    }

    // ---- Processing ----

    lemma AccountedAt(i: nat)
      requires Accounted() && i < topicCount
      ensures RingOk(topics[i]) && accepted[i] == taken[i] + Queued(topics[i])
    {
      hide Queued;
    }

    lemma AccountedShape()
      requires Accounted()
      ensures |accepted| == |taken| == topics.Length == MAX_TOPICS && topicCount <= MAX_TOPICS
    {
    }

    /** A callback, with the publishes it makes; it holds no lock. */
    method Invoke(k: nat, name: string, m: U16)
      requires Valid() && k < MAX_SUBSCRIBERS && LaterOnly(react, View())
      modifies this`accepted, this`calls, topics
      ensures Valid() && OnlyLater(old(View()), View(), old(accepted), accepted, Lookup(old(View()), name))
      ensures PassOk(old(State()))
      ensures State() == Called(old(State()), react, Call(k, subscribers[k].callback, subscribers[k].userData, name, m))
    {
      hide Accounted, OnlyLater, Publish, Queued, PostAll, Sound;
      SoundShape(View());
      ghost var r, was, at := View(), accepted, Lookup(View(), name);
      calls := calls + [Call(k, subscribers[k].callback, subscribers[k].userData, name, m)];
      var posts := react(calls);
      ghost var log, start := calls, State();
      var i := 0;
      AccountedShape();
      OnlyLaterNow(r, was, at);
      PostNone(start);
      assert posts[..0] == [];
      while i < |posts|
        invariant 0 <= i <= |posts| && Valid() && OnlyLater(r, View(), was, accepted, at)
        invariant calls == log && PassOk(start) && State() == PostAll(start, posts[..i])
      {
        ghost var q, mid := View(), accepted;
        SoundShape(q);
        SameByLater(r, q, was, mid, at);
        NamesDecide(react, r, q);
        assert PostsLater(r, log[|log| - 1].topic, posts[i].topic);
        PostAllSnoc(start, posts[..i], posts[i]);
        assert posts[..i + 1] == posts[..i] + [posts[i]];
        PublishIsLater(q, posts[i].topic, posts[i].message, mid, at);
        var ok := PublishMessage(posts[i].topic, posts[i].message);
        OnlyLaterChains(r, q, View(), was, mid, accepted, at);
        i := i + 1;
      }
      assert posts[..i] == posts;
    }

    /** The loop over the slots for one message. */
    method CallSubscribers(name: string, m: U16)
      requires Valid() && LaterOnly(react, View())
      modifies this`accepted, this`calls, topics
      ensures Valid() && OnlyLater(old(View()), View(), old(accepted), accepted, Lookup(old(View()), name))
      ensures PassOk(old(State())) && State() == CalledAll(old(State()), react, SlotCalls(subscribers[..], name, m))
    {
      hide Accounted, OnlyLater, Sound, Called;
      SoundShape(View());
      ghost var r, was, at, start, slots := View(), accepted, Lookup(View(), name), State(), subscribers[..];
      AccountedShape();
      OnlyLaterNow(r, was, at);
      var k := 0;
      assert slots[..0] == [];
      while k < MAX_SUBSCRIBERS
        invariant 0 <= k <= MAX_SUBSCRIBERS == |slots| && Valid() && OnlyLater(r, View(), was, accepted, at)
        invariant PassOk(start) && State() == CalledAll(start, react, SlotCalls(slots[..k], name, m))
      {
        ghost var q, mid := View(), accepted;
        SameByLater(r, q, was, mid, at);
        StillLater(react, r, q, name);
        assert slots[..k + 1][..k] == slots[..k];
        ghost var before := SlotCalls(slots[..k], name, m);
        assert before + [] == before;
        CalledAllSnoc(start, react, before, Call(k, slots[k].callback, slots[k].userData, name, m));
        if subscribers[k].active && subscribers[k].topic == name {
          Invoke(k, name, m);
          OnlyLaterChains(r, q, View(), was, mid, accepted, at);
        }
        k := k + 1;
      }
      assert slots[..k] == slots;
    }

    /** The state inside process_topic's loop: all is as usual but for the topic's own lock. */
    ghost predicate Held(i: nat)
      reads this, topics, subscribers
    {
      i < topics.Length && topics[i].lock && Accounted() && Sound(Unlocked(View(), i))
    }

    method Acquire(i: nat)
      requires Valid() && i < MAX_TOPICS
      modifies topics
      ensures Held(i) && Unlocked(View(), i) == old(View())
    {
      hide Accounts;
      ghost var r := View();
      LockKeepsAccounts(topics[..], topicCount, accepted, taken, i, true);
      LockTopic(i);
      assert Unlocked(View(), i).table == r.table;
    }

    method Release(i: nat)
      requires Held(i)
      modifies topics
      ensures Valid() && View() == Unlocked(old(View()), i)
    {
      hide Accounts;
      ghost var r := View();
      LockKeepsAccounts(topics[..], topicCount, accepted, taken, i, false);
      UnlockTopic(i);
      assert View() == Unlocked(r, i);
    }

    /** The top of the loop: the oldest message, taken under the lock, which is then released. */
    method TakeMessage(i: nat) returns (m: U16)
      requires Held(i) && i < topicCount && topics[i].tail != topics[i].head
      modifies this`taken, topics
      ensures Valid() && View() == SetTopic(Unlocked(old(View()), i), i, Take(old(topics[i]).(lock := false)))
      ensures Queued(old(topics[i]).(lock := false)) == [m] + Queued(Take(old(topics[i]).(lock := false)))
      ensures taken == old(taken)[i := old(taken[i]) + [m]]
    {
      hide Accounts, Queued, Lookup;
      ghost var r, t := Unlocked(View(), i), topics[i].(lock := false);
      AccountedShape();
      LockKeepsAccounts(topics[..], topicCount, accepted, taken, i, false);
      TakeKeepsAccounts(r.table, topicCount, accepted, taken, i);
      SameNamesKeep(r, i, Take(t));
      m := topics[i].ring[topics[i].tail];
      topics[i] := topics[i].(tail := (topics[i].tail + 1) % QUEUE_SIZE);
      UnlockTopic(i);
      taken := taken[i := taken[i] + [m]];
      assert topics[..] == r.table[i := Take(t)];
    }

    /** One turn of the loop: a message is taken, the lock released, the subscribers called and the
        lock taken again. */
    method NextMessage(i: nat, name: string) returns (m: U16)
      requires Held(i) && i < topicCount && topics[i].tail != topics[i].head
      requires LaterOnly(react, Unlocked(View(), i)) && Lookup(Unlocked(View(), i), name) == i
      modifies this`accepted, this`taken, this`calls, topics
      ensures Held(i)
      ensures var r, q := old(Unlocked(View(), i)), Unlocked(View(), i);
              && OnlyLater(r, q, old(accepted), accepted, i - 1) && accepted[i] == old(accepted)[i]
              && Queued(r.table[i]) == [m] + Queued(q.table[i])
      ensures taken == old(taken)[i := old(taken[i]) + [m]]
      ensures var s := Pass(old(Unlocked(View(), i)), old(accepted), old(calls));
              && PassOk(s) && PassOk(WithTopic(s, i, Take(s.reg.table[i])))
              && Pass(Unlocked(View(), i), accepted, calls)
                 == CalledAll(WithTopic(s, i, Take(s.reg.table[i])), react, SlotCalls(subscribers[..], name, m))
    {
      hide Accounts, Queued, Lookup, OnlyLater, LaterOnly, Accounted, CalledAll;
      ghost var r, was := Unlocked(View(), i), accepted;
      AccountedShape();
      m := TakeMessage(i);
      ghost var q := View();
      TakenIsLater(r, was, i, Take(r.table[i]));
      SameByLater(r, q, was, was, i - 1);
      StillLater(react, r, q, name);
      CallSubscribers(name, m);
      SameByLater(q, View(), was, accepted, i);
      OnlyLaterWeakens(q, View(), was, accepted, i);
      OnlyLaterChains(r, q, View(), was, was, accepted, i - 1);
      Acquire(i);
    }

    method DrainTopic(i: nat, name: string)
      requires Valid() && LaterOnly(react, View()) && Lookup(View(), name) == i
      modifies this`accepted, this`taken, this`calls, topics
      ensures Valid() && SameNames(old(View()), View()) && Queued(topics[i]) == []
      ensures OnlyLater(old(View()), View(), old(accepted), accepted, i - 1)
      ensures accepted[i] == old(accepted[i]) && taken == old(taken)[i := accepted[i]]
      ensures PassOk(old(State())) && Drained(old(State()), State(), react, i, name, old(Queued(topics[i])))
    {
      hide Queued, Lookup, OnlyLater, LaterOnly, Accounts, Sound, Accounted, Progress, CalledAll;
      SoundShape(View());
      AccountedShape();
      AccountedAt(i);
      ghost var start, gone := State(), taken;
      ghost var waiting, done: seq<U16> := Queued(topics[i]), [];
      ProgressStarts(start, gone, react, i, name);
      Acquire(i);
      while topics[i].tail != topics[i].head
        invariant Held(i) && PassOk(start)
        invariant Progress(start, gone, Pass(Unlocked(View(), i), accepted, calls), taken,
                           react, i, name, waiting, done)
        decreases |waiting| - |done|
      {
        ghost var s, left := Pass(Unlocked(View(), i), accepted, calls), taken;
        ProgressMeans(start, gone, s, left, react, i, name, waiting, done);
        StillLater(react, start.reg, s.reg, name);
        var m := NextMessage(i, name);
        AccountedShape();
        ProgressNext(start, gone, s, left, Pass(Unlocked(View(), i), accepted, calls), taken, react, i, name, waiting,
                     done, m);
        done := done + [m];
      }
      ProgressEnds(start, gone, Pass(Unlocked(View(), i), accepted, calls), taken, react, i, name, waiting, done);
      Release(i);
    }

    /** Calls every subscriber of the topic for every message waiting, oldest first, slots in
        ascending order, and leaves the queue empty and the lock free; a name that is no topic is
        ignored. */
    method ProcessTopic(name: string)
      requires Valid() && LaterOnly(react, View())
      modifies this`accepted, this`taken, this`calls, topics
      ensures Valid()
      ensures var r, at := old(View()), Lookup(old(View()), name);
              && (at < 0 ==> View() == r && accepted == old(accepted) && taken == old(taken) && calls == old(calls))
              && (at >= 0 ==> && SameNames(r, View()) && Queued(topics[at]) == []
                              && OnlyLater(r, View(), old(accepted), accepted, at - 1)
                              && accepted[at] == old(accepted[at])
                              && taken == old(taken)[at := accepted[at]]
                              && PassOk(old(State()))
                              && Drained(old(State()), State(), react, at, name, old(Queued(topics[at]))))
    {
      var i := GetTopic(name);
      if i < 0 {
        return;
      }
      DrainTopic(i, name);
    }

    /** Empties every queue and makes exactly these callbacks: by topic index, then in the order in
        which the topic accepted the messages, those posted during the processing included, then by
        ascending slot.  It ends because no callback posts to its own or an earlier topic. */
    method ProcessAll()
      requires Valid() && LaterOnly(react, View()) && UniqueNames(View())
      modifies this`accepted, this`taken, this`calls, topics
      ensures Valid() && SameNames(old(View()), View())
      ensures forall i | 0 <= i < topicCount ::
                Queued(topics[i]) == [] && old(taken[i]) <= taken[i] == accepted[i] && old(accepted[i]) <= accepted[i]
      ensures PassOk(old(State()))
      ensures var p := Passed(old(State()), react, topicCount); accepted == p.accepted && calls == p.calls
      ensures calls == old(calls)
                       + AllCalls(subscribers[..], Names(old(View())), NewlyTaken(old(taken), taken, topicCount))
    {
      hide Queued, LaterOnly, Lookup, Accounts, Calls, UniqueNames, Sound, OnlyLater, Swept, Drained, Agree, Passed;
      AccountedShape();
      ghost var start, first := Snapshot(View(), accepted, taken, calls), State();
      GoneIsAccepted();
      SoundShape(View());
      SweptNone(start);
      AgreeAtStart(first, react);
      var i := 0;
      while i < topicCount
        invariant 0 <= i <= topicCount && Valid()
        invariant Swept(start, Snapshot(View(), accepted, taken, calls), i)
        invariant PassOk(first) && Agree(State(), Passed(first, react, i), i)
      {
        ghost var mid, s := Snapshot(View(), accepted, taken, calls), State();
        SweptMeans(start, mid, i);
        NamesDecide(react, start.reg, mid.reg);
        SoundShape(View());
        UniqueIsFound(mid.reg, i);
        AccountedAt(i);
        ProcessTopic(topics[i].name);
        SoundShape(View());
        DrainedCalls(s, State(), react, i, s.reg.table[i].name, Queued(s.reg.table[i]));
        SweptNext(start, mid, Snapshot(View(), accepted, taken, calls), i);
        PassGoesOn(first, s, State(), react, i);
        i := i + 1;
      }
      SweptAll(start, Snapshot(View(), accepted, taken, calls));
      AgreeMeans(State(), Passed(first, react, i), i);
    }

    lemma GoneIsAccepted()
      requires Accounted()
      ensures forall j | 0 <= j < MAX_TOPICS :: taken[j] <= accepted[j]
    {
      hide Queued;
    }
  }
}
