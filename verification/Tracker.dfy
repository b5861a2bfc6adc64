/** The message tracker (src/main.c): a table of sent identifiers, marked as they are received. */
module Tracker {
  import opened Decimal
  import opened Base64
  import opened Search
  import opened Identifiers
  import opened Message
  import opened MessageRoundTrip
  import opened Wrappers

  const PUBLISH_COUNT := 10

  datatype Tracked = Tracked(guid: Guid, sent: bool, received: bool)

  // ---- The table ----

  function Track(t: seq<Tracked>, g: Guid): seq<Tracked> {
    if |t| >= PUBLISH_COUNT then t else t + [Tracked(g, true, false)]
  }

  /** Marks the first entry with the identifier. */
  function Mark(t: seq<Tracked>, g: Guid): (u: seq<Tracked>)
    ensures |u| == |t|
  {
    if t == [] then []
    else if t[0].guid == g then [t[0].(received := true)] + t[1..]
    else [t[0]] + Mark(t[1..], g)
  }

  function Count(t: seq<Tracked>): nat {
    if t == [] then 0 else Count(t[..|t| - 1]) + (if t[|t| - 1].received then 1 else 0)
  }

  class MessageTracker {
    const table: array<Tracked>
    var count: nat
    var expected: int

    predicate Valid()
      reads this
    {
      table.Length == PUBLISH_COUNT && count <= PUBLISH_COUNT
    }

    function Entries(): (t: seq<Tracked>)
      requires Valid()
      reads this, table
      ensures |t| == count
    {
      table[..count]
    }

    constructor ()
      ensures Valid() && Entries() == [] && expected == 0 && fresh(table)
    {
      table := new Tracked[PUBLISH_COUNT](_ => Tracked(Guid(0, 0), false, false));
      count, expected := 0, 0;
    }

    method TrackMessage(g: Guid) returns (slot: int)
      requires Valid()
      modifies this`count, table
      ensures Valid() && Entries() == Track(old(Entries()), g)
      ensures slot == if old(count) < 10 then old(count) else -1
      ensures Entries() == if slot >= 0 then old(Entries()) + [Tracked(g, true, false)] else old(Entries())
    {
      if count >= PUBLISH_COUNT {
        return -1;
      }
      table[count] := Tracked(g, true, false);
      count := count + 1;
      return count - 1;
    }

    method MarkReceived(g: Guid) returns (found: bool)
      requires Valid()
      modifies table
      ensures Valid() && Entries() == Mark(old(Entries()), g)
      ensures found <==> exists i | 0 <= i < old(count) :: old(table[i]).guid == g
      ensures found ==> exists i | 0 <= i < old(count) ::
                && old(table[i]).guid == g && (forall j | 0 <= j < i :: old(table[j]).guid != g)
                && Entries() == old(Entries())[i := old(table[i]).(received := true)]
      ensures !found ==> Entries() == old(Entries())
    {
      ghost var t := Entries();
      var i := 0;
      while i < count
        invariant 0 <= i <= count && Entries() == t
        invariant forall j | 0 <= j < i :: t[j].guid != g
      {
        if table[i].guid == g {
          MarkFirst(t, g, i);
          table[i] := table[i].(received := true);
          assert Entries() == t[i := t[i].(received := true)];
          return true;
        }
        i := i + 1;
      }
      MarkNone(t, g);
      return false;
    }

    method CountReceivedMessages() returns (n: nat)
      requires Valid()
      ensures n == Count(Entries())
    {
      n := 0;
      var i := 0;
      while i < count
        invariant 0 <= i <= count && n == Count(Entries()[..i])
      {
        assert Entries()[..i + 1][..i] == Entries()[..i];
        if table[i].received {
          n := n + 1;
        }
        i := i + 1;
      }
      assert Entries()[..i] == Entries();
    }

    method AllMessagesReceived() returns (all: bool)
      requires Valid()
      ensures all <==> Count(Entries()) >= expected
    {
      var received := CountReceivedMessages();
      all := received >= expected;
    }
  }

  lemma {:induction false} MarkFirst(t: seq<Tracked>, g: Guid, i: nat)
    requires i < |t| && t[i].guid == g && forall j | 0 <= j < i :: t[j].guid != g
    ensures Mark(t, g) == t[i := t[i].(received := true)]
  {
    if i > 0 {
      MarkFirst(t[1..], g, i - 1);
    }
  }

  lemma {:induction false} MarkNone(t: seq<Tracked>, g: Guid)
    requires forall j | 0 <= j < |t| :: t[j].guid != g
    ensures Mark(t, g) == t
  {
    if t != [] {
      MarkNone(t[1..], g);
    }
  }

  // ---- Runs ----

  datatype Event = Sent(guid: Guid) | Received(guid: Guid)

  function Step(t: seq<Tracked>, e: Event): seq<Tracked> {
    match e
    case Sent(g) => Track(t, g)
    case Received(g) => Mark(t, g)
  }

  /** The table after a run of the two tasks, interleaved in any way. */
  function Run(es: seq<Event>): seq<Tracked> {
    if es == [] then [] else Step(Run(es[..|es| - 1]), es[|es| - 1])
  }

  /** The i-th event put its identifier into the table. */
  predicate Accepted(es: seq<Event>, i: nat) {
    i < |es| && es[i].Sent? && |Run(es[..i])| < PUBLISH_COUNT
  }

  /** The identifier was received after it had been tracked. */
  ghost predicate Heard(es: seq<Event>, g: Guid) {
    exists i, j :: 0 <= i < j < |es| && es[j] == Received(g) && Accepted(es, i) && es[i] == Sent(g)
  }

  /** What the table says: it holds a tracked identifier, and which ones are marked. */
  predicate Holds(t: seq<Tracked>, g: Guid) {
    exists i | 0 <= i < |t| :: t[i].guid == g
  }

  predicate Marked(t: seq<Tracked>, g: Guid) {
    exists i | 0 <= i < |t| :: t[i].guid == g && t[i].received
  }

  /** Only the first of several entries with one identifier is ever marked. */
  predicate FirstOnly(t: seq<Tracked>) {
    forall i, j | 0 <= i < j < |t| && t[j].received :: t[i].guid != t[j].guid
  }

  lemma {:induction false} MarkMeans(t: seq<Tracked>, g: Guid)
    ensures FirstOnly(t) ==> FirstOnly(Mark(t, g))
    ensures forall x :: Holds(Mark(t, g), x) <==> Holds(t, x)
    ensures forall x :: Marked(Mark(t, g), x) <==> Marked(t, x) || (x == g && Holds(t, g))
  {
    if Holds(t, g) {
      var i := FirstAt(t, g);
      MarkFirst(t, g, i);
      var u := Mark(t, g);
      assert u[i].guid == g && u[i].received;
      assert forall k | 0 <= k < |t| :: u[k].guid == t[k].guid;
      forall x ensures Holds(u, x) <==> Holds(t, x) {
        if Holds(t, x) {
          var k :| 0 <= k < |t| && t[k].guid == x;
          assert u[k].guid == x;
        }
      }
      forall x ensures Marked(u, x) <==> Marked(t, x) || (x == g && Holds(t, g)) {
        if Marked(t, x) {
          var k :| 0 <= k < |t| && t[k].guid == x && t[k].received;
          assert u[k].guid == x && u[k].received;
        }
      }
    } else {
      MarkNone(t, g);
    }
  }

  lemma FirstAt(t: seq<Tracked>, g: Guid) returns (i: nat)
    requires Holds(t, g)
    ensures i < |t| && t[i].guid == g && forall j | 0 <= j < i :: t[j].guid != g
  {
    var k :| 0 <= k < |t| && t[k].guid == g;
    i := 0;
    while t[i].guid != g
      invariant i <= k && forall j | 0 <= j < i :: t[j].guid != g
      decreases k - i
    {
      i := i + 1;
    }
  }

  lemma TrackMeans(t: seq<Tracked>, g: Guid)
    ensures FirstOnly(t) ==> FirstOnly(Track(t, g))
    ensures forall x :: Holds(Track(t, g), x) <==> Holds(t, x) || (x == g && |t| < PUBLISH_COUNT)
    ensures forall x :: Marked(Track(t, g), x) <==> Marked(t, x)
  {
    var u := Track(t, g);
    if |t| < PUBLISH_COUNT {
      assert u[|t|].guid == g;
      forall x ensures Holds(u, x) <==> Holds(t, x) || x == g {
        if Holds(t, x) {
          var k :| 0 <= k < |t| && t[k].guid == x;
          assert u[k].guid == x;
        }
      }
      forall x ensures Marked(u, x) <==> Marked(t, x) {
        if Marked(t, x) {
          var k :| 0 <= k < |t| && t[k].guid == x && t[k].received;
          assert u[k].guid == x && u[k].received;
        }
      }
    }
  }

  /** An identifier of the table got there by an accepted event. */
  ghost predicate WasAccepted(es: seq<Event>, g: Guid) {
    exists i :: 0 <= i < |es| && Accepted(es, i) && es[i] == Sent(g)
  }

  lemma AcceptedPrefix(es: seq<Event>, e: Event, i: nat)
    requires i < |es|
    ensures Accepted(es + [e], i) <==> Accepted(es, i)
  {
    assert (es + [e])[..i] == es[..i];
  }

  lemma AcceptedSnoc(es: seq<Event>, e: Event, g: Guid)
    ensures WasAccepted(es + [e], g) <==> WasAccepted(es, g) || (e == Sent(g) && |Run(es)| < PUBLISH_COUNT)
  {
    var fs := es + [e];
    assert fs[..|es|] == es;
    if WasAccepted(es, g) {
      var i :| 0 <= i < |es| && Accepted(es, i) && es[i] == Sent(g);
      AcceptedPrefix(es, e, i);
      assert fs[i] == Sent(g);
    }
    if WasAccepted(fs, g) {
      var i :| 0 <= i < |fs| && Accepted(fs, i) && fs[i] == Sent(g);
      if i < |es| {
        AcceptedPrefix(es, e, i);
      }
    }
    if e == Sent(g) && |Run(es)| < PUBLISH_COUNT {
      assert Accepted(fs, |es|) && fs[|es|] == Sent(g);
    }
  }

  lemma HeardSnoc(es: seq<Event>, e: Event, g: Guid)
    ensures Heard(es + [e], g) <==> Heard(es, g) || (e == Received(g) && WasAccepted(es, g))
  {
    var fs := es + [e];
    if Heard(es, g) {
      var i, j :| 0 <= i < j < |es| && es[j] == Received(g) && Accepted(es, i) && es[i] == Sent(g);
      AcceptedPrefix(es, e, i);
      assert fs[j] == Received(g) && fs[i] == Sent(g);
    }
    if e == Received(g) && WasAccepted(es, g) {
      var i :| 0 <= i < |es| && Accepted(es, i) && es[i] == Sent(g);
      AcceptedPrefix(es, e, i);
      assert fs[|es|] == Received(g) && fs[i] == Sent(g);
    }
    if Heard(fs, g) {
      var i, j :| 0 <= i < j < |fs| && fs[j] == Received(g) && Accepted(fs, i) && fs[i] == Sent(g);
      AcceptedPrefix(es, e, i);
      if j < |es| {
        assert es[j] == Received(g) && es[i] == Sent(g);
      }
    }
  }

  /** After any run, the table marks exactly the identifiers received after they were tracked. */
  lemma {:induction false} TableTells(es: seq<Event>)
    ensures FirstOnly(Run(es)) && |Run(es)| <= PUBLISH_COUNT
    ensures forall g :: Holds(Run(es), g) <==> WasAccepted(es, g)
    ensures forall g :: Marked(Run(es), g) <==> Heard(es, g)
  {
    hide Mark, Track, Holds, Marked, WasAccepted, Heard, FirstOnly;
    if es == [] {
      EmptyTable();
    } else {
      var es', e := es[..|es| - 1], es[|es| - 1];
      assert es == es' + [e];
      TableTells(es');
      TrackMeans(Run(es'), e.guid);
      MarkMeans(Run(es'), e.guid);
      TrackLength(Run(es'), e.guid);
      forall g ensures Holds(Run(es), g) <==> WasAccepted(es, g) {
        AcceptedSnoc(es', e, g);
      }
      forall g ensures Marked(Run(es), g) <==> Heard(es, g) {
        HeardSnoc(es', e, g);
      }
    }
  }

  lemma TrackLength(t: seq<Tracked>, g: Guid)
    requires |t| <= PUBLISH_COUNT
    ensures |Track(t, g)| <= PUBLISH_COUNT
  {
  }

  lemma EmptyTable()
    ensures FirstOnly(Run([])) && Run([]) == []
    ensures forall g :: !Holds([], g) && !WasAccepted([], g) && !Marked([], g) && !Heard([], g)
  {
  }

  function MarkedGuids(t: seq<Tracked>): set<Guid> {
    set i | 0 <= i < |t| && t[i].received :: t[i].guid
  }

  lemma {:induction false} CountIsDistinct(t: seq<Tracked>)
    requires FirstOnly(t)
    ensures Count(t) == |MarkedGuids(t)|
  {
    if t != [] {
      var t', e := t[..|t| - 1], t[|t| - 1];
      assert forall i | 0 <= i < |t'| :: t'[i] == t[i];
      CountIsDistinct(t');
      assert t == t' + [e];
      MarkedSnoc(t', e);
      if e.received {
        assert e.guid !in MarkedGuids(t');
      }
    }
  }

  lemma MarkedSnoc(t: seq<Tracked>, e: Tracked)
    ensures MarkedGuids(t + [e]) == MarkedGuids(t) + if e.received then {e.guid} else {}
  {
    var u := t + [e];
    assert u[|t|] == e;
    forall i | 0 <= i < |t| ensures u[i] == t[i] {
    }
  }

  /** After any interleaving, duplicates and strangers included, the count of received messages is
      the number of distinct identifiers received after they were tracked. */
  lemma CountsHeard(es: seq<Event>, heard: set<Guid>)
    requires forall g :: g in heard <==> Heard(es, g)
    ensures Count(Run(es)) == |heard|
  {
    hide Heard;
    var t := Run(es);
    TableTells(es);
    CountIsDistinct(t);
    forall g ensures g in MarkedGuids(t) <==> Marked(t, g) {
    }
    assert MarkedGuids(t) == heard;
  }

  /** With the expected count set to the table size, all messages count as received exactly when
      the table is full of distinct identifiers that were all heard. */
  lemma AllReceivedExactly(es: seq<Event>)
    ensures Count(Run(es)) >= 10
            <==> && |Run(es)| == 10
                 && (forall i, j | 0 <= i < j < PUBLISH_COUNT :: Run(es)[i].guid != Run(es)[j].guid)
                 && forall i | 0 <= i < PUBLISH_COUNT :: Heard(es, Run(es)[i].guid)
  {
    hide Heard;
    var t := Run(es);
    TableTells(es);
    CountIsAll(t);
    if |t| == PUBLISH_COUNT && forall i | 0 <= i < |t| :: t[i].received {
      forall i | 0 <= i < |t| ensures Heard(es, t[i].guid) {
        assert Marked(t, t[i].guid);
      }
    }
    if (forall i, j | 0 <= i < j < |t| :: t[i].guid != t[j].guid) && forall i | 0 <= i < |t| :: Heard(es, t[i].guid) {
      MarkedAreReceived(t);
    }
  }

  lemma MarkedAreReceived(t: seq<Tracked>)
    requires forall i, j | 0 <= i < j < |t| :: t[i].guid != t[j].guid
    requires forall i | 0 <= i < |t| :: Marked(t, t[i].guid)
    ensures forall i | 0 <= i < |t| :: t[i].received
  {
    forall i | 0 <= i < |t| ensures t[i].received {
      var k :| 0 <= k < |t| && t[k].guid == t[i].guid && t[k].received;
    }
  }

  lemma {:induction false} CountIsAll(t: seq<Tracked>)
    ensures Count(t) <= |t|
    ensures Count(t) == |t| <==> forall i | 0 <= i < |t| :: t[i].received
  {
    if t != [] {
      CountIsAll(t[..|t| - 1]);
      assert forall i | 0 <= i < |t| - 1 :: t[..|t| - 1][i] == t[i];
    }
  }

  // ---- From the printed message to the table ----

  lemma IdPrefix(id: int, g: Guid, text: string, digest: Digest, max: int)
    requires CText(text)
    ensures var m := NewMessage(id, g, text, digest, max);
            |m| >= 23 + |IdText(id)| && m[..23 + |IdText(id)|] == GuidPrefix(id, g)
  {
    hide Encode, IdText, ShownText, ShownBase64, Print;
    var f := NewFields(id, g, text, Encode(Bytes(text)), Encode(digest), max);
    var m := NewMessage(id, g, text, digest, max);
    var rest := "\"," + FieldsText(f[1..]) + TAIL;
    assert Head(id) == "{" + ("\"" + ("Id" + ("\"" + (":" + IdText(id) + ","))));
    assert Quoted(f[0]) == GUID_NEEDLE + ":\"" + Print(g) + "\"";
    assert m == GuidPrefix(id, g) + rest;
  }

  /** A message up to the last digit of its identifier. */
  function GuidPrefix(id: int, g: Guid): (s: string)
    ensures |s| == 23 + |IdText(id)|
  {
    "{" + ("\"" + ("Id" + ("\"" + (":" + IdText(id) + ",")))) + (GUID_NEEDLE + ":\"" + Print(g))
  }

  /** The consumer reads the identifier out of any payload that holds a message up to its last
      hexadecimal digit, whatever precedes its brace and wherever the payload ends after that. */
  lemma IdentifierReceived(id: int, g: Guid, text: string, digest: Digest, max: int, noise: string, n: nat)
    requires CText(text) && '{' !in noise
    requires 23 + |IdText(id)| <= n <= |NewMessage(id, g, text, digest, max)|
    ensures Extracted(noise + NewMessage(id, g, text, digest, max)[..n]) == Some(g)
  {
    hide NewMessage, GuidPrefix, Extracted;
    IdPrefix(id, g, text, digest, max);
    var m, k := NewMessage(id, g, text, digest, max), 23 + |IdText(id)|;
    assert m[..n] == GuidPrefix(id, g) + m[k..n];
    PrefixExtracted(id, g, m[k..n], noise);
  }

  lemma PrefixExtracted(id: int, g: Guid, rest: string, noise: string)
    requires '{' !in noise
    ensures Extracted(noise + (GuidPrefix(id, g) + rest)) == Some(g)
  {
    hide After, FromBrace, CString, Taken, Print, IdText, Parse;
    PrefixIsPlain(id, g);
    FromBraceSkips(noise, GuidPrefix(id, g) + rest);
    PrefixHasNoNul(id, g);
    CStringKeeps(GuidPrefix(id, g), rest);
    var after := Print(g) + CString(rest);
    assert GuidPrefix(id, g) + CString(rest)
        == "{" + ("\"" + ("Id" + ("\"" + (":" + IdText(id) + "," + (GUID_NEEDLE + (":\"" + after))))));
    FindsGuid(IdText(id), ":\"" + after);
    assert SkipOne(":\"" + after, ':') == "\"" + after;
    assert SkipOne("\"" + after, '"') == after;
    TakenFull(Print(g), CString(rest));
    ParseInvertsPrint(g);
  }

  lemma PrefixIsPlain(id: int, g: Guid)
    ensures QuoteFree(Print(g)) && NUL !in Print(g) && QuoteFree(IdText(id)) && NUL !in IdText(id)
  {
    hide Hex;
    HexIsPlain(g.high, 4);
    HexIsPlain(g.low, 4);
    IdTextIsDigits(id);
  }

  lemma PrefixHasNoNul(id: int, g: Guid)
    ensures NUL !in GuidPrefix(id, g)
  {
    hide Print, IdText;
    PrefixIsPlain(id, g);
  }

  lemma FindsGuid(digits: string, rest: string)
    requires QuoteFree(digits)
    ensures After("{" + ("\"" + ("Id" + ("\"" + (":" + digits + "," + (GUID_NEEDLE + rest))))), GUID_NEEDLE)
            == Some(rest)
  {
    hide After;
    var n3 := GUID_NEEDLE + rest;
    var n2 := ":" + digits + "," + n3;
    var n1 := "Id" + ("\"" + n2);
    AfterSkips("{", "\"" + n1, GUID_NEEDLE);
    assert ("\"" + n1)[1] == 'I' && GUID_NEEDLE[1] == 'G';
    AfterSkipsOne("\"" + n1, GUID_NEEDLE);
    assert ("\"" + n1)[1..] == n1;
    AfterSkips("Id", "\"" + n2, GUID_NEEDLE);
    assert ("\"" + n2)[1] == ':';
    AfterSkipsOne("\"" + n2, GUID_NEEDLE);
    assert ("\"" + n2)[1..] == n2;
    AfterSkips(":" + digits + ",", n3, GUID_NEEDLE);
    AfterHere(GUID_NEEDLE, rest);
  }
}
