/** What processing the topics calls and posts (src/pubsub.c), for callbacks that only publish, and
    only to topics of a higher index than their own. */
module PubSubCalls {
  import opened Words
  import opened PubSubState

  /** One callback: a subscriber's slot, and the topic and message it is called with. */
  datatype Call = Call(slot: nat, callback: nat, userData: nat, topic: string, message: U16)

  /** A publish that a callback makes. */
  datatype Post = Post(topic: string, message: U16)

  /** The calls for some messages of a topic: message by message, slots in ascending order. */
  function Calls(slots: seq<Slot>, name: string, messages: seq<U16>): seq<Call> {
    if messages == [] then []
    else Calls(slots, name, messages[..|messages| - 1]) + SlotCalls(slots, name, messages[|messages| - 1])
  }

  function SlotCalls(slots: seq<Slot>, name: string, m: U16): seq<Call> {
    if slots == [] then []
    else
      var k := |slots| - 1;
      SlotCalls(slots[..k], name, m) +
      if slots[k].active && slots[k].topic == name then [Call(k, slots[k].callback, slots[k].userData, name, m)] else []
  }

  /** One message is delivered to exactly the active slots of its topic, in ascending order, each
      with its own callback and user data. */
  lemma {:induction false} SlotCallsExactly(slots: seq<Slot>, name: string, m: U16)
    ensures var c := SlotCalls(slots, name, m);
            && (forall k | 0 <= k < |c| ::
                  && c[k].slot < |slots| && slots[c[k].slot].active && slots[c[k].slot].topic == name
                  && c[k] == Call(c[k].slot, slots[c[k].slot].callback, slots[c[k].slot].userData, name, m))
            && (forall j, k | 0 <= j < k < |c| :: c[j].slot < c[k].slot)
            && forall i | 0 <= i < |slots| && slots[i].active && slots[i].topic == name ::
                 Call(i, slots[i].callback, slots[i].userData, name, m) in c
  {
    if slots != [] {
      var n := |slots| - 1;
      SlotCallsExactly(slots[..n], name, m);
      var before, c := SlotCalls(slots[..n], name, m), SlotCalls(slots, name, m);
      assert before <= c && |c| <= |before| + 1;
      forall k | 0 <= k < |before| ensures c[k] == before[k] && slots[..n][c[k].slot] == slots[c[k].slot] {
      }
      forall i | 0 <= i < |slots| && slots[i].active && slots[i].topic == name
        ensures Call(i, slots[i].callback, slots[i].userData, name, m) in c
      {
        if i < n {
          assert slots[..n][i] == slots[i];
          assert Call(i, slots[i].callback, slots[i].userData, name, m) in before;
        } else {
          assert c[|before|] == Call(i, slots[i].callback, slots[i].userData, name, m);
        }
      }
    }
  }

  /** Several messages are delivered one after the other. */
  lemma CallsInOrder(slots: seq<Slot>, name: string, messages: seq<U16>, m: U16)
    ensures Calls(slots, name, []) == []
    ensures Calls(slots, name, messages + [m]) == Calls(slots, name, messages) + SlotCalls(slots, name, m)
  {
    CallsSnoc(slots, name, messages, m);
  }

  /** The calls for every topic in index order, given the messages taken from each. */
  function AllCalls(slots: seq<Slot>, names: seq<string>, taken: seq<seq<U16>>): seq<Call>
    requires |names| == |taken|
  {
    if names == [] then []
    else
      var k := |names| - 1;
      AllCalls(slots, names[..k], taken[..k]) + Calls(slots, names[k], taken[k])
  }

  // ---- Passing over the topics ----

  datatype Snapshot = Snapshot(reg: Registry, accepted: seq<seq<U16>>, taken: seq<seq<U16>>, calls: seq<Call>)

  /** From `s` to `t` the first n topics have been processed. */
  ghost predicate Swept(s: Snapshot, t: Snapshot, n: nat) {
    && SameNames(s.reg, t.reg) && n <= s.reg.count
    && |s.accepted| == |t.accepted| == |s.taken| == |t.taken| == MAX_TOPICS
    && (forall j | 0 <= j < MAX_TOPICS :: s.taken[j] <= s.accepted[j] <= t.accepted[j])
    && (forall j | 0 <= j < n :: RingOk(t.reg.table[j]) && Queued(t.reg.table[j]) == [] && t.taken[j] == t.accepted[j])
    && (forall j | n <= j < MAX_TOPICS :: t.taken[j] == s.taken[j])
    && t.calls == s.calls + AllCalls(s.reg.slots, Names(s.reg)[..n], NewlyTaken(s.taken, t.taken, n))
  }

  lemma SweptNone(s: Snapshot)
    requires |s.reg.table| == |s.accepted| == |s.taken| == MAX_TOPICS && s.reg.count <= MAX_TOPICS
    requires forall j | 0 <= j < MAX_TOPICS :: s.taken[j] <= s.accepted[j]
    ensures Swept(s, s, 0)
  {
  }

  lemma SweptMeans(s: Snapshot, t: Snapshot, n: nat)
    requires Swept(s, t, n)
    ensures SameNames(s.reg, t.reg)
  {
  }

  lemma SweptAll(s: Snapshot, t: Snapshot)
    requires Swept(s, t, s.reg.count)
    ensures SameNames(s.reg, t.reg) && |s.accepted| == |t.accepted| == |s.taken| == |t.taken| == MAX_TOPICS
    ensures forall j | 0 <= j < s.reg.count ::
              && RingOk(t.reg.table[j]) && Queued(t.reg.table[j]) == []
              && s.taken[j] <= t.taken[j] == t.accepted[j] && s.accepted[j] <= t.accepted[j]
    ensures t.calls == s.calls + AllCalls(s.reg.slots, Names(s.reg), NewlyTaken(s.taken, t.taken, s.reg.count))
  {
    hide Queued;
    assert Names(s.reg)[..s.reg.count] == Names(s.reg);
    forall j | 0 <= j < s.reg.count ensures s.taken[j] <= t.taken[j] {
      assert s.taken[j] <= s.accepted[j] <= t.accepted[j];
    }
  }

  lemma SweptNext(s: Snapshot, t: Snapshot, u: Snapshot, n: nat)
    requires Swept(s, t, n) && n < s.reg.count && SameNames(t.reg, u.reg)
    requires RingOk(t.reg.table[n]) && t.accepted[n] == t.taken[n] + Queued(t.reg.table[n])
    requires RingOk(u.reg.table[n]) && Queued(u.reg.table[n]) == []
    requires OnlyLater(t.reg, u.reg, t.accepted, u.accepted, n - 1)
    requires u.accepted[n] == t.accepted[n] && u.taken == t.taken[n := u.accepted[n]]
    requires u.calls == t.calls + Calls(t.reg.slots, t.reg.table[n].name, Queued(t.reg.table[n]))
    ensures Swept(s, u, n + 1)
  {
    hide Queued, Calls, AllCalls, NewlyTaken, Names;
    AllCallsSnoc(s.reg.slots, s.reg, s.taken, t.taken, u.taken, n, Queued(t.reg.table[n]));
    forall j | 0 <= j < MAX_TOPICS ensures s.accepted[j] <= u.accepted[j] {
      assert s.accepted[j] <= t.accepted[j] <= u.accepted[j];
    }
  }

  // ---- Callbacks that only publish, and only to later topics ----

  predicate SameNames(r: Registry, q: Registry) {
    && |r.table| == |q.table| == MAX_TOPICS && q.count == r.count <= MAX_TOPICS
    && q.slots == r.slots && q.highWater == r.highWater
    && forall i | 0 <= i < MAX_TOPICS :: q.table[i].name == r.table[i].name
  }

  /** Whatever has been called so far, the last callback publishes only to topics of a higher index
      than its own, or to none. */
  ghost predicate LaterOnly(react: seq<Call> -> seq<Post>, r: Registry)
    requires r.count <= |r.table|
  {
    forall log: seq<Call>, k | log != [] && 0 <= k < |react(log)| ::
      PostsLater(r, log[|log| - 1].topic, react(log)[k].topic)
  }

  function Unlocked(r: Registry, i: nat): Registry
    requires i < |r.table|
  {
    SetTopic(r, i, r.table[i].(lock := false))
  }

  predicate PostsLater(r: Registry, from: string, topic: string)
    requires r.count <= |r.table|
  {
    Lookup(r, topic) == -1 || Lookup(r, topic) > Lookup(r, from)
  }

  /** Topics up to the i-th are as they were, and no topic has lost an accepted message. */
  predicate OnlyLater(r: Registry, q: Registry, was: seq<seq<U16>>, now: seq<seq<U16>>, i: int) {
    && SameNames(r, q) && |was| == |now| == MAX_TOPICS && i < MAX_TOPICS
    && (forall j | 0 <= j <= i :: q.table[j] == r.table[j] && now[j] == was[j])
    && forall j | 0 <= j < MAX_TOPICS :: was[j] <= now[j]
  }

  lemma OnlyLaterChains(r: Registry, q: Registry, p: Registry, a: seq<seq<U16>>, b: seq<seq<U16>>, c: seq<seq<U16>>,
                        i: int)
    requires OnlyLater(r, q, a, b, i) && OnlyLater(q, p, b, c, i)
    ensures OnlyLater(r, p, a, c, i)
  {
    forall j | 0 <= j < MAX_TOPICS ensures a[j] <= c[j] {
      assert a[j] <= b[j] <= c[j];
    }
  }

  lemma NamesDecide(react: seq<Call> -> seq<Post>, r: Registry, q: Registry)
    requires SameNames(r, q)
    ensures LaterOnly(react, r) <==> LaterOnly(react, q)
    ensures forall name :: Lookup(r, name) == Lookup(q, name)
    ensures UniqueNames(r) <==> UniqueNames(q)
  {
    forall name ensures Lookup(r, name) == Lookup(q, name) {
    }
    assert forall a, b :: PostsLater(r, a, b) == PostsLater(q, a, b);
  }

  lemma StillLater(react: seq<Call> -> seq<Post>, r: Registry, q: Registry, name: string)
    requires SameNames(r, q) && LaterOnly(react, r)
    ensures LaterOnly(react, q) && Lookup(q, name) == Lookup(r, name)
  {
    NamesDecide(react, r, q);
  }

  lemma PublishIsLater(r: Registry, name: string, m: U16, was: seq<seq<U16>>, i: int)
    requires Shape(r) && |was| == MAX_TOPICS && i < MAX_TOPICS && (Lookup(r, name) == -1 || Lookup(r, name) > i)
    ensures var (q, ok) := Publish(r, name, m);
            var k := Lookup(r, name);
            OnlyLater(r, q, was, if ok then was[k := was[k] + [m]] else was, i)
  {
  }

  /** Each topic has accepted what was taken from it and what it holds; the topics still unused
      hold nothing. */
  predicate Accounts(table: seq<Topic>, count: nat, accepted: seq<seq<U16>>, taken: seq<seq<U16>>) {
    && |table| == |accepted| == |taken| == MAX_TOPICS && count <= MAX_TOPICS
    && (forall i | 0 <= i < count :: RingOk(table[i]) && accepted[i] == taken[i] + Queued(table[i]))
    && forall i | count <= i < MAX_TOPICS :: accepted[i] == taken[i]
  }

  lemma LockKeepsAccounts(table: seq<Topic>, count: nat, accepted: seq<seq<U16>>, taken: seq<seq<U16>>, i: nat, b: bool)
    requires Accounts(table, count, accepted, taken) && i < MAX_TOPICS
    ensures Accounts(table[i := table[i].(lock := b)], count, accepted, taken)
  {
    LockKeepsQueue(table[i], b);
    hide Queued;
  }

  lemma LockKeepsQueue(t: Topic, b: bool)
    ensures RingOk(t) ==> RingOk(t.(lock := b)) && Queued(t.(lock := b)) == Queued(t)
  {
  }

  lemma PutKeepsAccounts(table: seq<Topic>, count: nat, accepted: seq<seq<U16>>, taken: seq<seq<U16>>, i: nat, m: U16)
    requires Accounts(table, count, accepted, taken) && i < count && !IsFull(table[i])
    ensures Accounts(table[i := Put(table[i], m)], count, accepted[i := accepted[i] + [m]], taken)
  {
    PutAppends(table[i], m);
    hide Queued;
    assert taken[i] + (Queued(table[i]) + [m]) == taken[i] + Queued(table[i]) + [m];
  }

  lemma TakeKeepsAccounts(table: seq<Topic>, count: nat, accepted: seq<seq<U16>>, taken: seq<seq<U16>>, i: nat)
    requires Accounts(table, count, accepted, taken) && i < count && table[i].head != table[i].tail
    ensures var t := table[i];
            && Accounts(table[i := Take(t)], count, accepted, taken[i := taken[i] + [t.ring[t.tail]]])
            && Queued(t) == [t.ring[t.tail]] + Queued(Take(t))
  {
    TakeRemovesFirst(table[i]);
    hide Queued;
    var t := table[i];
    assert taken[i] + ([t.ring[t.tail]] + Queued(Take(t))) == taken[i] + [t.ring[t.tail]] + Queued(Take(t));
  }

  function Names(r: Registry): (names: seq<string>)
    requires r.count <= |r.table|
    ensures |names| == r.count
  {
    seq(r.count, i requires 0 <= i < r.count => r.table[i].name)
  }

  /** What was taken from the first n topics since then. */
  function NewlyTaken(was: seq<seq<U16>>, now: seq<seq<U16>>, n: nat): (t: seq<seq<U16>>)
    requires n <= |was| && n <= |now|
    ensures |t| == n
  {
    seq(n, i requires 0 <= i < n => if was[i] <= now[i] then now[i][|was[i]|..] else [])
  }

  lemma UniqueIsFound(r: Registry, i: nat)
    requires Shape(r) && UniqueNames(r) && i < r.count
    ensures Lookup(r, r.table[i].name) == i
  {
  }

  lemma AllCallsSnoc(slots: seq<Slot>, r: Registry, gone: seq<seq<U16>>, left: seq<seq<U16>>, taken: seq<seq<U16>>,
                     i: nat, waiting: seq<U16>)
    requires i < r.count <= |r.table| == |gone| == |left| == MAX_TOPICS
    requires taken == left[i := gone[i] + waiting]
    ensures AllCalls(slots, Names(r)[..i + 1], NewlyTaken(gone, taken, i + 1))
            == AllCalls(slots, Names(r)[..i], NewlyTaken(gone, left, i)) + Calls(slots, r.table[i].name, waiting)
  {
    hide Calls;
    var names, new' := Names(r)[..i + 1], NewlyTaken(gone, taken, i + 1);
    assert names[..i] == Names(r)[..i] && new'[..i] == NewlyTaken(gone, left, i);
    assert new'[i] == waiting;
  }

  lemma TakenIsLater(r: Registry, was: seq<seq<U16>>, i: nat, t: Topic)
    requires Shape(r) && |was| == MAX_TOPICS && i < MAX_TOPICS && t.name == r.table[i].name
    ensures OnlyLater(r, SetTopic(r, i, t), was, was, i - 1)
  {
  }

  lemma OnlyLaterWeakens(r: Registry, q: Registry, was: seq<seq<U16>>, now: seq<seq<U16>>, i: int)
    requires OnlyLater(r, q, was, now, i)
    ensures OnlyLater(r, q, was, now, i - 1)
  {
  }

  lemma CallsSnoc(slots: seq<Slot>, name: string, done: seq<U16>, m: U16)
    ensures Calls(slots, name, done + [m]) == Calls(slots, name, done) + SlotCalls(slots, name, m)
  {
    assert (done + [m])[..|done|] == done;
  }

  lemma OnlyLaterNow(r: Registry, was: seq<seq<U16>>, i: int)
    requires Shape(r) && |was| == MAX_TOPICS && i < MAX_TOPICS
    ensures OnlyLater(r, r, was, was, i)
  {
  }

  lemma SameByLater(r: Registry, q: Registry, was: seq<seq<U16>>, now: seq<seq<U16>>, i: int)
    requires OnlyLater(r, q, was, now, i)
    ensures SameNames(r, q) && |was| == |now| == MAX_TOPICS
    ensures forall j | 0 <= j <= i :: q.table[j] == r.table[j] && now[j] == was[j]
    ensures forall j | 0 <= j < MAX_TOPICS :: was[j] <= now[j]
  {
  }

  // ---- What the callbacks post ----

  /** The registry, all that each topic has accepted so far, and the calls made so far. */
  datatype Pass = Pass(reg: Registry, accepted: seq<seq<U16>>, calls: seq<Call>)

  predicate PassOk(p: Pass) {
    Shape(p.reg) && |p.accepted| == MAX_TOPICS
  }

  function PostOne(p: Pass, post: Post): (q: Pass)
    requires PassOk(p)
    ensures PassOk(q) && SameNames(p.reg, q.reg) && q.calls == p.calls
  {
    var i := Lookup(p.reg, post.topic);
    var (r, ok) := Publish(p.reg, post.topic, post.message);
    Pass(r, if ok then p.accepted[i := p.accepted[i] + [post.message]] else p.accepted, p.calls)
  }

  function PostAll(p: Pass, posts: seq<Post>): (q: Pass)
    requires PassOk(p)
    ensures PassOk(q) && SameNames(p.reg, q.reg) && q.calls == p.calls
  {
    if posts == [] then p else PostOne(PostAll(p, posts[..|posts| - 1]), posts[|posts| - 1])
  }

  /** One more call, and what it posts, which may depend on all calls so far. */
  function Called(p: Pass, react: seq<Call> -> seq<Post>, call: Call): (q: Pass)
    requires PassOk(p)
    ensures PassOk(q) && SameNames(p.reg, q.reg) && q.calls == p.calls + [call]
  {
    var calls := p.calls + [call];
    PostAll(p.(calls := calls), react(calls))
  }

  function CalledAll(p: Pass, react: seq<Call> -> seq<Post>, calls: seq<Call>): (q: Pass)
    requires PassOk(p)
    ensures PassOk(q) && SameNames(p.reg, q.reg) && q.calls == p.calls + calls
  {
    if calls == [] then p else Called(CalledAll(p, react, calls[..|calls| - 1]), react, calls[|calls| - 1])
  }

  /** The first n topics processed: each in turn makes the calls for what its queue then holds.
      What is taken is left out here: no later post of the pass can reach that topic any more. */
  function Passed(p: Pass, react: seq<Call> -> seq<Post>, n: nat): (q: Pass)
    requires PassOk(p) && n <= p.reg.count
    ensures PassOk(q) && SameNames(p.reg, q.reg)
  {
    if n == 0 then p
    else
      var q := Passed(p, react, n - 1);
      var t := q.reg.table[n - 1];
      CalledAll(q, react, Calls(q.reg.slots, t.name, Queued(t)))
  }

  /** What a callback publishes joins its topic's queue and its history exactly when the topic is
      known and fewer than 63 wait there; otherwise it is lost and nothing changes. */
  lemma PostGives(p: Pass, post: Post)
    requires PassOk(p)
    ensures var q, i := PostOne(p, post), Lookup(p.reg, post.topic);
            if i >= 0 && |Queued(p.reg.table[i])| < 63
            then && q.accepted == p.accepted[i := p.accepted[i] + [post.message]]
                 && Queued(q.reg.table[i]) == Queued(p.reg.table[i]) + [post.message]
                 && q.reg == SetTopic(p.reg, i, q.reg.table[i]) && q.calls == p.calls
            else q == p
  {
    PublishGives(p.reg, post.topic, post.message);
    hide Queued, PubSubState.Publish;
  }

  /** A call is recorded, and then the callback's posts are made. */
  lemma CallPosts(p: Pass, react: seq<Call> -> seq<Post>, call: Call, post: Post)
    requires PassOk(p) && react(p.calls + [call]) == [post]
    ensures Called(p, react, call) == PostOne(p.(calls := p.calls + [call]), post)
  {
    var q := p.(calls := p.calls + [call]);
    PostNone(q);
    PostAllSnoc(q, [], post);
    assert [] + [post] == [post];
    hide PostOne;
  }

  lemma PostNone(p: Pass)
    requires PassOk(p)
    ensures PostAll(p, []) == p
  {
  }

  lemma PostAllSnoc(p: Pass, posts: seq<Post>, post: Post)
    requires PassOk(p)
    ensures PostAll(p, posts + [post]) == PostOne(PostAll(p, posts), post)
  {
    assert (posts + [post])[..|posts|] == posts;
  }

  lemma CalledAllSnoc(p: Pass, react: seq<Call> -> seq<Post>, calls: seq<Call>, call: Call)
    requires PassOk(p)
    ensures CalledAll(p, react, calls + [call]) == Called(CalledAll(p, react, calls), react, call)
  {
    assert (calls + [call])[..|calls|] == calls;
  }

  lemma {:induction false} CalledAllConcat(p: Pass, react: seq<Call> -> seq<Post>, a: seq<Call>, b: seq<Call>)
    requires PassOk(p)
    ensures CalledAll(p, react, a + b) == CalledAll(CalledAll(p, react, a), react, b)
    decreases |b|
  {
    hide Called, PassOk;
    if b == [] {
      assert a + b == a;
    } else {
      var n := |b| - 1;
      CalledAllConcat(p, react, a, b[..n]);
      assert (a + b)[..|a| + n] == a + b[..n];
    }
  }

  predicate CallsAt(r: Registry, calls: seq<Call>, i: int)
    requires r.count <= |r.table|
  {
    forall k | 0 <= k < |calls| :: Lookup(r, calls[k].topic) == i
  }

  predicate PostsPast(r: Registry, posts: seq<Post>, i: int)
    requires r.count <= |r.table|
  {
    forall k | 0 <= k < |posts| :: Lookup(r, posts[k].topic) == -1 || Lookup(r, posts[k].topic) > i
  }

  lemma ReactsPast(react: seq<Call> -> seq<Post>, r: Registry, calls: seq<Call>, call: Call, i: int)
    requires r.count <= |r.table| && LaterOnly(react, r) && Lookup(r, call.topic) == i
    ensures PostsPast(r, react(calls + [call]), i)
  {
    var log := calls + [call];
    forall k | 0 <= k < |react(log)|
      ensures Lookup(r, react(log)[k].topic) == -1 || Lookup(r, react(log)[k].topic) > i
    {
      assert PostsLater(r, log[|log| - 1].topic, react(log)[k].topic);
    }
  }

  // ---- Topics that no post reaches ----

  function WithTopic(p: Pass, i: nat, t: Topic): Pass
    requires i < |p.reg.table|
  {
    p.(reg := SetTopic(p.reg, i, t))
  }

  lemma PostOneElsewhere(p: Pass, post: Post, i: nat, t: Topic)
    requires PassOk(p) && i < MAX_TOPICS && RingOk(t) && t.name == p.reg.table[i].name && Lookup(p.reg, post.topic) != i
    ensures PassOk(WithTopic(p, i, t)) && PostOne(WithTopic(p, i, t), post) == WithTopic(PostOne(p, post), i, t)
  {
    hide IsFull, Put;
    LookupUnder(p.reg, WithTopic(p, i, t).reg, post.topic);
    var a, b := PostOne(WithTopic(p, i, t), post), WithTopic(PostOne(p, post), i, t);
    assert a.reg.table == b.reg.table;
  }

  lemma {:induction false} PostAllElsewhere(p: Pass, posts: seq<Post>, i: nat, t: Topic)
    requires PassOk(p) && i < MAX_TOPICS && RingOk(t) && t.name == p.reg.table[i].name && PostsPast(p.reg, posts, i)
    ensures PassOk(WithTopic(p, i, t)) && PostAll(WithTopic(p, i, t), posts) == WithTopic(PostAll(p, posts), i, t)
    decreases |posts|
  {
    hide PostOne, Lookup;
    if posts != [] {
      var n := |posts| - 1;
      PostAllElsewhere(p, posts[..n], i, t);
      var q := PostAll(p, posts[..n]);
      LookupUnder(p.reg, q.reg, posts[n].topic);
      PostOneElsewhere(q, posts[n], i, t);
    }
  }

  /** Calls for topic i do not touch it, so whatever has been taken from it makes no difference. */
  lemma {:induction false} CalledElsewhere(p: Pass, react: seq<Call> -> seq<Post>, calls: seq<Call>, i: nat, t: Topic)
    requires PassOk(p) && i < MAX_TOPICS && RingOk(t) && t.name == p.reg.table[i].name
    requires LaterOnly(react, p.reg) && CallsAt(p.reg, calls, i)
    ensures PassOk(WithTopic(p, i, t))
    ensures CalledAll(WithTopic(p, i, t), react, calls) == WithTopic(CalledAll(p, react, calls), i, t)
    decreases |calls|
  {
    hide PostAll, LaterOnly, Lookup;
    if calls != [] {
      var n := |calls| - 1;
      CalledElsewhere(p, react, calls[..n], i, t);
      var q, c := CalledAll(p, react, calls[..n]), calls[n];
      StillLater(react, p.reg, q.reg, c.topic);
      ReactsPast(react, q.reg, q.calls, c, i);
      PostAllElsewhere(q.(calls := q.calls + [c]), react(q.calls + [c]), i, t);
    }
  }

  /** Two states that differ only in topics below the i-th. */
  predicate Agree(p: Pass, q: Pass, i: nat) {
    && PassOk(p) && PassOk(q) && SameNames(p.reg, q.reg) && p.accepted == q.accepted && p.calls == q.calls
    && p.reg.lock == q.reg.lock && forall j | i <= j < MAX_TOPICS :: p.reg.table[j] == q.reg.table[j]
  }

  lemma PostOneAgrees(p: Pass, q: Pass, post: Post, i: nat)
    requires Agree(p, q, i) && (Lookup(p.reg, post.topic) == -1 || Lookup(p.reg, post.topic) > i)
    ensures Agree(PostOne(p, post), PostOne(q, post), i)
  {
    LookupUnder(p.reg, q.reg, post.topic);
  }

  lemma {:induction false} PostAllAgrees(p: Pass, q: Pass, posts: seq<Post>, i: nat)
    requires Agree(p, q, i) && PostsPast(p.reg, posts, i)
    ensures Agree(PostAll(p, posts), PostAll(q, posts), i)
    decreases |posts|
  {
    hide PostOne, Lookup, Agree;
    AgreeMeans(p, q, i);
    if posts != [] {
      var n := |posts| - 1;
      PostAllAgrees(p, q, posts[..n], i);
      LookupUnder(p.reg, PostAll(p, posts[..n]).reg, posts[n].topic);
      PostOneAgrees(PostAll(p, posts[..n]), PostAll(q, posts[..n]), posts[n], i);
    }
  }

  lemma AgreeMeans(p: Pass, q: Pass, i: nat)
    requires Agree(p, q, i)
    ensures PassOk(p) && PassOk(q) && SameNames(p.reg, q.reg) && p.accepted == q.accepted && p.calls == q.calls
    ensures i < MAX_TOPICS ==> p.reg.table[i] == q.reg.table[i]
  {
  }

  lemma {:induction false} CalledAgree(p: Pass, q: Pass, react: seq<Call> -> seq<Post>, calls: seq<Call>, i: nat)
    requires Agree(p, q, i) && LaterOnly(react, p.reg) && CallsAt(p.reg, calls, i)
    ensures Agree(CalledAll(p, react, calls), CalledAll(q, react, calls), i)
    decreases |calls|
  {
    hide PostAll, LaterOnly, Lookup, Agree;
    AgreeMeans(p, q, i);
    if calls != [] {
      var n := |calls| - 1;
      CalledAgree(p, q, react, calls[..n], i);
      var a, b, c := CalledAll(p, react, calls[..n]), CalledAll(q, react, calls[..n]), calls[n];
      StillLater(react, p.reg, a.reg, c.topic);
      ReactsPast(react, a.reg, a.calls, c, i);
      AgreeCalls(a, b, c, i);
      PostAllAgrees(a.(calls := a.calls + [c]), b.(calls := b.calls + [c]), react(a.calls + [c]), i);
    }
  }

  lemma AgreeCalls(p: Pass, q: Pass, c: Call, i: nat)
    requires Agree(p, q, i)
    ensures p.calls == q.calls && Agree(p.(calls := p.calls + [c]), q.(calls := q.calls + [c]), i)
  {
  }

  // ---- Draining one topic ----

  /** From `p` the messages `done` of topic i have been taken and delivered. */
  predicate Drained(p: Pass, s: Pass, react: seq<Call> -> seq<Post>, i: nat, name: string, done: seq<U16>)
    requires PassOk(p)
  {
    var q := CalledAll(p, react, Calls(p.reg.slots, name, done));
    && i < MAX_TOPICS && PassOk(s) && s.reg.table[i].name == p.reg.table[i].name
    && s == WithTopic(q, i, s.reg.table[i])
  }

  lemma DrainedNone(p: Pass, react: seq<Call> -> seq<Post>, i: nat, name: string)
    requires PassOk(p) && i < MAX_TOPICS
    ensures Drained(p, p, react, i, name, [])
  {
    assert WithTopic(p, i, p.reg.table[i]).reg.table == p.reg.table;
  }

  lemma DrainedNext(p: Pass, s: Pass, u: Pass, react: seq<Call> -> seq<Post>, i: nat, name: string, done: seq<U16>,
                    m: U16, t: Topic)
    requires PassOk(p) && Drained(p, s, react, i, name, done) && LaterOnly(react, p.reg) && Lookup(p.reg, name) == i
    requires RingOk(t) && t.name == s.reg.table[i].name
    requires PassOk(WithTopic(s, i, t))
             && u == CalledAll(WithTopic(s, i, t), react, SlotCalls(p.reg.slots, name, m))
    ensures Drained(p, u, react, i, name, done + [m])
  {
    hide LaterOnly, Lookup, Calls, SlotCalls, CalledAll;
    var slots := p.reg.slots;
    var q := CalledAll(p, react, Calls(slots, name, done));
    StillLater(react, p.reg, q.reg, name);
    SlotCallsAt(slots, q.reg, name, m, i);
    CalledElsewhere(q, react, SlotCalls(slots, name, m), i, t);
    assert WithTopic(s, i, t).reg.table == WithTopic(q, i, t).reg.table;
    CallsSnoc(slots, name, done, m);
    CalledAllConcat(p, react, Calls(slots, name, done), SlotCalls(slots, name, m));
  }

  lemma {:induction false} SlotCallsAt(slots: seq<Slot>, r: Registry, name: string, m: U16, i: int)
    requires r.count <= |r.table| && Lookup(r, name) == i
    ensures CallsAt(r, SlotCalls(slots, name, m), i)
  {
    hide Lookup;
    if slots != [] {
      SlotCallsAt(slots[..|slots| - 1], r, name, m, i);
    }
  }

  lemma {:induction false} CallsAreAt(slots: seq<Slot>, r: Registry, name: string, messages: seq<U16>, i: int)
    requires r.count <= |r.table| && Lookup(r, name) == i
    ensures CallsAt(r, Calls(slots, name, messages), i)
  {
    hide Lookup, SlotCalls;
    if messages != [] {
      CallsAreAt(slots, r, name, messages[..|messages| - 1], i);
      SlotCallsAt(slots, r, name, messages[|messages| - 1], i);
    }
  }

  /** A drained topic takes the pass one topic further. */
  lemma PassGoesOn(p: Pass, s: Pass, u: Pass, react: seq<Call> -> seq<Post>, i: nat)
    requires PassOk(p) && i < p.reg.count && UniqueNames(p.reg) && LaterOnly(react, p.reg)
    requires Agree(s, Passed(p, react, i), i)
    requires Drained(s, u, react, i, s.reg.table[i].name, Queued(s.reg.table[i]))
    ensures Agree(u, Passed(p, react, i + 1), i + 1)
  {
    hide LaterOnly, Lookup, UniqueNames, Queued, Calls, CalledAll;
    var q := Passed(p, react, i);
    AgreeMeans(s, q, i);
    var name, messages := s.reg.table[i].name, Queued(s.reg.table[i]);
    NamesDecide(react, p.reg, q.reg);
    NamesDecide(react, q.reg, s.reg);
    UniqueIsFound(s.reg, i);
    CallsAreAt(s.reg.slots, s.reg, name, messages, i);
    CalledAgree(s, q, react, Calls(s.reg.slots, name, messages), i);
    var a, b := CalledAll(s, react, Calls(s.reg.slots, name, messages)), Passed(p, react, i + 1);
    assert b == CalledAll(q, react, Calls(q.reg.slots, name, messages));
  }

  lemma AgreeAtStart(p: Pass, react: seq<Call> -> seq<Post>)
    requires PassOk(p)
    ensures Agree(p, Passed(p, react, 0), 0)
  {
  }

  lemma DrainedCalls(p: Pass, s: Pass, react: seq<Call> -> seq<Post>, i: nat, name: string, done: seq<U16>)
    requires PassOk(p) && Drained(p, s, react, i, name, done)
    ensures s.calls == p.calls + Calls(p.reg.slots, name, done) && SameNames(p.reg, s.reg)
  {
    hide Calls;
  }

  // ---- The loop of process_topic ----

  /** The messages `done` of the `waiting` ones of topic i have been delivered. */
  predicate Progress(p: Pass, gone: seq<seq<U16>>, s: Pass, taken: seq<seq<U16>>, react: seq<Call> -> seq<Post>, i: nat,
                     name: string, waiting: seq<U16>, done: seq<U16>)
    requires PassOk(p)
  {
    && i < MAX_TOPICS && |gone| == MAX_TOPICS && Drained(p, s, react, i, name, done)
    && OnlyLater(p.reg, s.reg, p.accepted, s.accepted, i - 1) && s.accepted[i] == p.accepted[i]
    && taken == gone[i := gone[i] + done]
    && waiting == done + Queued(s.reg.table[i]) && RingOk(s.reg.table[i])
  }

  lemma ProgressStarts(p: Pass, gone: seq<seq<U16>>, react: seq<Call> -> seq<Post>, i: nat, name: string)
    requires PassOk(p) && i < MAX_TOPICS && |gone| == MAX_TOPICS
    ensures Progress(p, gone, p, gone, react, i, name, Queued(p.reg.table[i]), [])
  {
    hide Queued, Drained;
    DrainedNone(p, react, i, name);
    OnlyLaterNow(p.reg, p.accepted, i - 1);
    assert gone[i] + [] == gone[i];
    assert [] + Queued(p.reg.table[i]) == Queued(p.reg.table[i]);
  }

  lemma ProgressMeans(p: Pass, gone: seq<seq<U16>>, s: Pass, taken: seq<seq<U16>>, react: seq<Call> -> seq<Post>,
                      i: nat, name: string, waiting: seq<U16>, done: seq<U16>)
    requires PassOk(p) && Progress(p, gone, s, taken, react, i, name, waiting, done)
    ensures SameNames(p.reg, s.reg) && |done| <= |waiting| && i < MAX_TOPICS == |taken|
    ensures RingOk(s.reg.table[i]) && |waiting| == |done| + |Queued(s.reg.table[i])|
  {
    hide Queued, Drained;
  }

  lemma ProgressNext(p: Pass, gone: seq<seq<U16>>, s: Pass, left: seq<seq<U16>>, u: Pass, taken: seq<seq<U16>>,
                     react: seq<Call> -> seq<Post>, i: nat, name: string, waiting: seq<U16>, done: seq<U16>, m: U16)
    requires PassOk(p) && Progress(p, gone, s, left, react, i, name, waiting, done)
    requires LaterOnly(react, p.reg) && Lookup(p.reg, name) == i && PassOk(s) && PassOk(u)
    requires PassOk(WithTopic(s, i, Take(s.reg.table[i])))
    requires u == CalledAll(WithTopic(s, i, Take(s.reg.table[i])), react, SlotCalls(p.reg.slots, name, m))
    requires OnlyLater(s.reg, u.reg, s.accepted, u.accepted, i - 1) && u.accepted[i] == s.accepted[i]
    requires Queued(s.reg.table[i]) == [m] + Queued(u.reg.table[i]) && |left| == MAX_TOPICS
    requires taken == left[i := left[i] + [m]]
    ensures Progress(p, gone, u, taken, react, i, name, waiting, done + [m]) && |done| < |waiting|
  {
    hide Queued, Drained, OnlyLater, LaterOnly, Lookup, CalledAll, SlotCalls;
    DrainedIsNamed(p, s, react, i, name, done);
    DrainedNext(p, s, u, react, i, name, done, m, Take(s.reg.table[i]));
    OnlyLaterChains(p.reg, s.reg, u.reg, p.accepted, s.accepted, u.accepted, i - 1);
    assert gone[i] + done + [m] == gone[i] + (done + [m]);
    assert done + ([m] + Queued(u.reg.table[i])) == done + [m] + Queued(u.reg.table[i]);
  }

  lemma DrainedIsNamed(p: Pass, s: Pass, react: seq<Call> -> seq<Post>, i: nat, name: string, done: seq<U16>)
    requires PassOk(p) && Drained(p, s, react, i, name, done)
    ensures i < MAX_TOPICS && PassOk(s) && s.reg.table[i].name == p.reg.table[i].name
  {
  }

  lemma ProgressEnds(p: Pass, gone: seq<seq<U16>>, s: Pass, taken: seq<seq<U16>>, react: seq<Call> -> seq<Post>, i: nat,
                     name: string, waiting: seq<U16>, done: seq<U16>)
    requires PassOk(p) && Progress(p, gone, s, taken, react, i, name, waiting, done)
    requires i < MAX_TOPICS && |s.reg.table| == MAX_TOPICS && s.reg.table[i].head == s.reg.table[i].tail
    requires p.accepted[i] == gone[i] + waiting
    ensures Drained(p, s, react, i, name, waiting) && RingOk(s.reg.table[i]) && Queued(s.reg.table[i]) == []
    ensures SameNames(p.reg, s.reg) && OnlyLater(p.reg, s.reg, p.accepted, s.accepted, i - 1)
    ensures s.accepted[i] == p.accepted[i] && taken == gone[i := s.accepted[i]]
  {
    TakeRemovesFirst(s.reg.table[i]);
    hide Queued, Drained;
    assert waiting == done;
  }

  // ---- What that decides ----

  lemma {:induction false} QuietCalls(p: Pass, react: seq<Call> -> seq<Post>, calls: seq<Call>)
    requires PassOk(p) && forall log :: react(log) == []
    ensures CalledAll(p, react, calls) == p.(calls := p.calls + calls)
  {
    if calls != [] {
      QuietCalls(p, react, calls[..|calls| - 1]);
    }
  }

  /** Callbacks that post nothing add nothing: what each topic has accepted stays as it was. */
  lemma {:induction false} QuietPass(p: Pass, react: seq<Call> -> seq<Post>, n: nat)
    requires PassOk(p) && n <= p.reg.count && forall log :: react(log) == []
    ensures Passed(p, react, n).accepted == p.accepted && Passed(p, react, n).reg == p.reg
  {
    hide Queued, Calls;
    if n > 0 {
      QuietPass(p, react, n - 1);
      var q := Passed(p, react, n - 1);
      QuietCalls(q, react, Calls(q.reg.slots, q.reg.table[n - 1].name, Queued(q.reg.table[n - 1])));
    }
  }
}
