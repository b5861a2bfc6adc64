/** The publish/subscribe manager (src/pubsub.c) as a value: topics with their message rings,
    subscriber slots, and what each operation makes of them. */
module PubSubState {
  import opened Words

  const MAX_TOPICS := 16
  const MAX_SUBSCRIBERS := 32
  const MAX_TOPIC_NAME := 32
  const QUEUE_SIZE := 64

  datatype Topic = Topic(name: string, ring: seq<U16>, head: nat, tail: nat, lock: bool)

  datatype Slot = Slot(topic: string, callback: nat, userData: nat, active: bool)

  /** The manager's fields; `count` topics of the table and `highWater` slots have been used. */
  datatype Registry = Registry(table: seq<Topic>, count: nat, slots: seq<Slot>, highWater: nat, lock: bool)

  // ---- A topic's ring ----

  predicate RingOk(t: Topic) {
    |t.ring| == QUEUE_SIZE && t.head < QUEUE_SIZE && t.tail < QUEUE_SIZE
  }

  /** The waiting messages, oldest first. */
  function Queued(t: Topic): seq<U16>
    requires RingOk(t)
  {
    if t.tail <= t.head then t.ring[t.tail..t.head] else t.ring[t.tail..] + t.ring[..t.head]
  }

  predicate IsFull(t: Topic) {
    (t.head + 1) % QUEUE_SIZE == t.tail
  }

  function Put(t: Topic, m: U16): (u: Topic)
    requires RingOk(t)
    ensures RingOk(u) && u.name == t.name && u.lock == t.lock
  {
    if IsFull(t) then t else t.(ring := t.ring[t.head := m], head := (t.head + 1) % QUEUE_SIZE)
  }

  function Take(t: Topic): (u: Topic)
    requires RingOk(t)
    ensures RingOk(u) && u.name == t.name && u.lock == t.lock
  {
    t.(tail := (t.tail + 1) % QUEUE_SIZE)
  }

  /** The size computation of pubsub_queue_size. */
  function SizeOf(t: Topic): int {
    if t.head >= t.tail then t.head - t.tail else QUEUE_SIZE - (t.tail - t.head)
  }

  /** A message is accepted exactly when fewer than 63 are queued, and then goes to the end. */
  lemma PutAppends(t: Topic, m: U16)
    requires RingOk(t)
    ensures |Queued(t)| <= QUEUE_SIZE - 1 && (IsFull(t) <==> |Queued(t)| == QUEUE_SIZE - 1)
    ensures Queued(Put(t, m)) == if |Queued(t)| < QUEUE_SIZE - 1 then Queued(t) + [m] else Queued(t)
  {
    QueuedAt(t);
    QueuedAt(Put(t, m));
    hide Queued;
    var q, u := Queued(t), Put(t, m);
    if !IsFull(t) {
      assert |Queued(u)| == |q| + 1;
      forall k | 0 <= k < |q| + 1 ensures Queued(u)[k] == (q + [m])[k] {
      }
    }
  }

  /** Taking removes the oldest message. */
  lemma TakeRemovesFirst(t: Topic)
    requires RingOk(t)
    ensures t.head != t.tail <==> Queued(t) != []
    ensures Queued(t) != [] ==> Queued(t) == [t.ring[t.tail]] + Queued(Take(t))
  {
    TakeMoves(t);
    QueuedAt(t);
    QueuedAt(Take(t));
    hide Queued, Take;
    if Queued(t) != [] {
      var q, u := Queued(t), Take(t);
      assert |Queued(u)| == |q| - 1;
      forall k | 0 <= k < |q| ensures q[k] == ([t.ring[t.tail]] + Queued(u))[k] {
      }
    }
  }

  lemma TakeMoves(t: Topic)
    requires RingOk(t)
    ensures Take(t) == t.(tail := if t.tail + 1 == QUEUE_SIZE then 0 else t.tail + 1)
  {
  }

  /** The queue by index; its length, across any wrap, is what pubsub_queue_size reports. */
  lemma QueuedAt(t: Topic)
    requires RingOk(t)
    ensures |Queued(t)| == SizeOf(t) < QUEUE_SIZE
    ensures forall k | 0 <= k < |Queued(t)| ::
              Queued(t)[k] == t.ring[if t.tail + k < QUEUE_SIZE then t.tail + k else t.tail + k - QUEUE_SIZE]
  {
  }

  // ---- Lookup ----

  /** strncpy into 32 bytes, the last of them NUL. */
  function Stored(name: string): (s: string)
    ensures |s| < MAX_TOPIC_NAME && (|name| < MAX_TOPIC_NAME ==> s == name)
  {
    if |name| < MAX_TOPIC_NAME then name else name[..MAX_TOPIC_NAME - 1]
  }

  /** The first of the first n topics with this name, or -1. */
  function LookupFrom(table: seq<Topic>, from: nat, n: nat, name: string): (i: int)
    requires from <= n <= |table|
    ensures i == -1 || from <= i < n
    ensures i >= 0 ==> table[i].name == name
    ensures forall j | from <= j < (if i < 0 then n else i) :: table[j].name != name
    decreases n - from
  {
    if from == n then -1
    else if table[from].name == name then from
    else LookupFrom(table, from + 1, n, name)
  }

  function Lookup(r: Registry, name: string): (i: int)
    requires r.count <= |r.table|
    ensures -1 <= i < r.count
    ensures i >= 0 ==> r.table[i].name == name
    ensures forall j | 0 <= j < (if i < 0 then r.count else i) :: r.table[j].name != name
  {
    LookupFrom(r.table, 0, r.count, name)
  }

  function FreeSlot(slots: seq<Slot>, from: nat): (i: nat)
    requires from <= |slots|
    ensures from <= i <= |slots| && (i < |slots| ==> !slots[i].active)
    ensures forall j | from <= j < i :: slots[j].active
    decreases |slots| - from
  {
    if from == |slots| || !slots[from].active then from else FreeSlot(slots, from + 1)
  }

  // ---- Operations ----

  predicate Shape(r: Registry) {
    && |r.table| == MAX_TOPICS && r.count <= MAX_TOPICS
    && |r.slots| == MAX_SUBSCRIBERS && r.highWater <= MAX_SUBSCRIBERS
    && forall i | 0 <= i < MAX_TOPICS :: RingOk(r.table[i])
  }

  /** The new registry and the topic's index, or -1; a full table refuses even a name it holds. */
  function CreateTopic(r: Registry, name: string): (res: (Registry, int))
    requires Shape(r)
    ensures Shape(res.0) && -1 <= res.1 < res.0.count
  {
    if r.count >= MAX_TOPICS then (r, -1)
    else if Lookup(r, name) >= 0 then (r, Lookup(r, name))
    else
      var fresh' := r.table[r.count].(name := Stored(name), head := 0, tail := 0, lock := false);
      (r.(table := r.table[r.count := fresh'], count := r.count + 1), r.count)
  }

  function SetTopic(r: Registry, i: nat, t: Topic): Registry
    requires i < |r.table|
  {
    r.(table := r.table[i := t])
  }

  function Publish(r: Registry, name: string, m: U16): (res: (Registry, bool))
    requires Shape(r)
    ensures Shape(res.0)
  {
    var i := Lookup(r, name);
    if i < 0 || IsFull(r.table[i]) then (r, false) else (SetTopic(r, i, Put(r.table[i], m)), true)
  }

  function Subscribe(r: Registry, name: string, callback: nat, userData: nat): (res: (Registry, int))
    requires Shape(r)
    ensures Shape(res.0)
  {
    if r.highWater >= MAX_SUBSCRIBERS then (r, -1)
    else
      var (r1, k) := if Lookup(r, name) < 0 then CreateTopic(r, name) else (r, Lookup(r, name));
      var i := FreeSlot(r1.slots, 0);
      if k < 0 || i == |r1.slots| then (r1, -1)
      else (r1.(slots := r1.slots[i := Slot(Stored(name), callback, userData, true)],
                highWater := if i >= r1.highWater then i + 1 else r1.highWater), i as int)
  }

  function Unsubscribe(r: Registry, id: int): (res: (Registry, bool))
    requires Shape(r)
    ensures Shape(res.0)
  {
    if 0 <= id < MAX_SUBSCRIBERS && r.slots[id].active then
      (r.(slots := r.slots[id := r.slots[id].(active := false, callback := 0, topic := "")]), true)
    else (r, false)
  }

  function ClearQueue(r: Registry, name: string): (res: Registry)
    requires Shape(r)
    ensures Shape(res)
  {
    var i := Lookup(r, name);
    if i < 0 then r else SetTopic(r, i, r.table[i].(head := 0, tail := 0))
  }

  // ---- What the operations do ----

  /** Unsubscribing succeeds exactly for an active slot; it makes that slot inactive, without
      callback and topic, and changes nothing else. */
  lemma UnsubscribeClears(r: Registry, id: int)
    requires Shape(r)
    ensures var (q, ok) := Unsubscribe(r, id);
            && (ok <==> 0 <= id < 32 && r.slots[id].active)
            && (ok ==> !q.slots[id].active && q.slots[id].callback == 0 && q.slots[id].topic == "")
            && (forall k | 0 <= k < MAX_SUBSCRIBERS && !(ok && k == id) :: q.slots[k] == r.slots[k])
            && q.table == r.table && q.count == r.count && q.highWater == r.highWater && q.lock == r.lock
  {
  }

  /** A known name gives its first index, a new one the next index, with an empty queue under the
      stored name; a full table refuses both. */
  lemma CreateGives(r: Registry, name: string)
    requires Shape(r)
    ensures var (q, k) := CreateTopic(r, name);
            if r.count == 16 then k == -1 && q == r
            else if i :| 0 <= i < r.count && r.table[i].name == name && forall j | 0 <= j < i :: r.table[j].name != name
            then k == i && q == r
            else && k == r.count && q.count == k + 1 && q.slots == r.slots && q.highWater == r.highWater
                 && q.table[k].name == (if |name| <= 31 then name else name[..31])
                 && Queued(q.table[k]) == [] && !q.table[k].lock
                 && forall j | 0 <= j < MAX_TOPICS && j != k :: q.table[j] == r.table[j]
  {
  }

  /** A message goes to the end of its topic's queue exactly when the topic is known and fewer than
      63 wait there; nothing else changes. */
  lemma PublishGives(r: Registry, name: string, m: U16)
    requires Shape(r)
    ensures var (q, ok), i := Publish(r, name, m), Lookup(r, name);
            && (ok <==> i >= 0 && |Queued(r.table[i])| < 63) && (!ok ==> q == r)
            && (ok ==> && Queued(q.table[i]) == Queued(r.table[i]) + [m] && q.table[i].name == name
                       && q == SetTopic(r, i, q.table[i]))
  {
    hide Queued;
    var i := Lookup(r, name);
    if i >= 0 {
      PutAppends(r.table[i], m);
    }
  }

  lemma ClearGives(r: Registry, name: string)
    requires Shape(r)
    ensures var q, i := ClearQueue(r, name), Lookup(r, name);
            if i < 0 then q == r
            else Queued(q.table[i]) == [] && q.table[i].name == name && q == SetTopic(r, i, q.table[i])
  {
  }

  // ---- What every operation keeps ----

  /** No lock is held; every active slot is below the high-water mark and names a topic. */
  predicate Sound(r: Registry) {
    && Shape(r) && !r.lock
    && (forall i | 0 <= i < MAX_TOPICS :: !r.table[i].lock)
    && (forall i | 0 <= i < r.count :: |r.table[i].name| < MAX_TOPIC_NAME)
    && forall k | 0 <= k < MAX_SUBSCRIBERS && r.slots[k].active :: k < r.highWater && Lookup(r, r.slots[k].topic) >= 0
  }

  predicate UniqueNames(r: Registry)
    requires r.count <= |r.table|
  {
    forall i, j | 0 <= i < j < r.count :: r.table[i].name != r.table[j].name
  }

  lemma LookupUnder(r: Registry, q: Registry, name: string)
    requires Shape(r) && Shape(q) && r.count <= q.count
    requires forall i | 0 <= i < r.count :: r.table[i].name == q.table[i].name
    ensures Lookup(r, name) >= 0 ==> Lookup(q, name) == Lookup(r, name)
    ensures r.count == q.count ==> Lookup(q, name) == Lookup(r, name)
  {
  }

  lemma CreateKeeps(r: Registry, name: string)
    requires Sound(r)
    ensures var (q, k) := CreateTopic(r, name);
            && Sound(q) && r.count <= q.count && q.slots == r.slots && q.highWater == r.highWater
            && (forall i | 0 <= i < r.count :: q.table[i] == r.table[i])
            && (k >= 0 ==> Lookup(q, Stored(name)) >= 0)
            && (k < 0 <==> r.count == MAX_TOPICS) && (k < 0 ==> q == r)
  {
    var (q, k) := CreateTopic(r, name);
    forall s | 0 <= s < MAX_SUBSCRIBERS && q.slots[s].active ensures Lookup(q, q.slots[s].topic) >= 0 {
      LookupUnder(r, q, q.slots[s].topic);
    }
    if k >= 0 {
      assert q.table[k].name == Stored(name);
    }
  }

  /** Names stay unique exactly when the stored, possibly shortened, name is new; a name of at
      most 31 characters is stored whole, so it can never repeat one. */
  lemma CreateKeepsUnique(r: Registry, name: string)
    requires Sound(r) && UniqueNames(r)
    ensures UniqueNames(CreateTopic(r, name).0)
            <==> r.count == MAX_TOPICS || Lookup(r, name) >= 0 || Lookup(r, Stored(name)) < 0
    ensures |name| < MAX_TOPIC_NAME ==> UniqueNames(CreateTopic(r, name).0)
  {
    var q := CreateTopic(r, name).0;
    if r.count < MAX_TOPICS && Lookup(r, name) < 0 {
      assert q.table[r.count].name == Stored(name);
      var i := Lookup(r, Stored(name));
      if i >= 0 {
        assert q.table[i].name == q.table[r.count].name;
      }
    }
  }

  lemma SameNamesKeep(r: Registry, i: nat, t: Topic)
    requires Sound(r) && i < MAX_TOPICS && RingOk(t) && t.name == r.table[i].name && !t.lock
    ensures Sound(SetTopic(r, i, t))
    ensures UniqueNames(r) ==> UniqueNames(SetTopic(r, i, t))
    ensures forall name :: Lookup(SetTopic(r, i, t), name) == Lookup(r, name)
  {
    var q := SetTopic(r, i, t);
    forall name ensures Lookup(q, name) == Lookup(r, name) {
      LookupUnder(r, q, name);
    }
  }

  lemma SubscribeKeeps(r: Registry, name: string, callback: nat, userData: nat)
    requires Sound(r)
    ensures var (q, id) := Subscribe(r, name, callback, userData);
            && Sound(q) && r.highWater <= q.highWater
            && (id < 0 <==> r.highWater == MAX_SUBSCRIBERS || (Lookup(r, name) < 0 && r.count == MAX_TOPICS))
            && (id >= 0 ==>
                  && !r.slots[id].active && (forall k | 0 <= k < id :: r.slots[k].active)
                  && q.slots == r.slots[id := Slot(Stored(name), callback, userData, true)]
                  && q.highWater == if id < r.highWater then r.highWater else id + 1)
            && (id < 0 ==> q == r)
            && (UniqueNames(r) && |name| < MAX_TOPIC_NAME ==> UniqueNames(q))
  {
    hide CreateTopic, Lookup, UniqueNames, FreeSlot, Sound;
    SoundShape(r);
    if r.highWater < MAX_SUBSCRIBERS {
      CreateKeeps(r, name);
      if UniqueNames(r) {
        CreateKeepsUnique(r, name);
      }
      SlotsAreFree(r);
      StoredIsFound(r, name);
      var (r1, k) := if Lookup(r, name) < 0 then CreateTopic(r, name) else (r, Lookup(r, name));
      if k >= 0 {
        SetSlotKeeps(r1, FreeSlot(r1.slots, 0), Slot(Stored(name), callback, userData, true));
      }
    }
  }

  lemma SoundShape(r: Registry)
    requires Sound(r)
    ensures Shape(r) && !r.lock
  {
  }

  lemma SlotsAreFree(r: Registry)
    requires Sound(r) && r.highWater < MAX_SUBSCRIBERS
    ensures FreeSlot(r.slots, 0) <= r.highWater
  {
    assert !r.slots[r.highWater].active;
  }

  lemma StoredIsFound(r: Registry, name: string)
    requires Sound(r)
    ensures Lookup(r, name) >= 0 ==> Lookup(r, Stored(name)) >= 0
  {
    if Lookup(r, name) >= 0 {
      assert r.table[Lookup(r, name)].name == name == Stored(name);
    }
  }

  lemma SetSlotKeeps(r: Registry, i: nat, slot: Slot)
    requires Sound(r) && i < MAX_SUBSCRIBERS && Lookup(r, slot.topic) >= 0
    ensures var q := r.(slots := r.slots[i := slot], highWater := if i >= r.highWater then i + 1 else r.highWater);
            Sound(q) && (UniqueNames(r) ==> UniqueNames(q))
  {
    var q := r.(slots := r.slots[i := slot], highWater := if i >= r.highWater then i + 1 else r.highWater);
    forall s | 0 <= s < MAX_SUBSCRIBERS && q.slots[s].active ensures Lookup(q, q.slots[s].topic) >= 0 {
      LookupUnder(r, q, q.slots[s].topic);
    }
  }

  lemma UnsubscribeKeeps(r: Registry, id: int)
    requires Sound(r)
    ensures Sound(Unsubscribe(r, id).0) && Unsubscribe(r, id).0.highWater == r.highWater
    ensures UniqueNames(r) ==> UniqueNames(Unsubscribe(r, id).0)
  {
    var q := Unsubscribe(r, id).0;
    forall s | 0 <= s < MAX_SUBSCRIBERS && q.slots[s].active ensures Lookup(q, q.slots[s].topic) >= 0 {
      LookupUnder(r, q, q.slots[s].topic);
    }
  }
}
