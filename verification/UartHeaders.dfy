/** The reader's other inputs: objects that are no messages, +DATA and +RECV headers, objects
    outside any frame, and a buffer that overflows. */
module UartHeaders {
  import opened Decimal
  import opened Search
  import opened Identifiers
  import opened Message
  import opened MessageParsing
  import opened UartState
  import opened UartRuns

  /** What a complete object does to the queue: it is put there if it is a message. */
  function Offered(queue: seq<Response>, m: string): seq<Response> {
    if Parsed(m).valid then Enqueue(queue, Parsed(m)) else queue
  }

  lemma NoIdIsDropped(queue: seq<Response>, m: string)
    requires Nowhere(m, "\"Id\":")
    ensures Offered(queue, m) == queue
  {
    NoIdNoMessage(m);
  }

  // ---- Counted payload ----

  lemma ClosesDropped(s: Reader)
    requires 0 < |s.text| <= KEEP_ABOVE && s.text[0] == '{' && '{' !in s.text[1..] && !Parsed(CString(s.text)).valid
    ensures Finish(s, '}') == s.(text := "")
  {
    hide Parsed, CString;
    forall i | 1 <= i < |s.text| ensures s.text[i] != '{' {
      assert s.text[i] == s.text[1..][i - 1];
    }
    assert LastBrace(s.text) == 0;
    assert s.text[0..] == s.text;
  }

  /** The payload of an object, counted from its first byte: a message is queued, anything else is
      dropped, and the reader is idle again. */
  lemma ObjectTaken(s: Reader, m: string, t: nat, mem: nat -> char)
    requires Bounded(s) && s.text == "" && s.remaining == |m| && IsObject(m) && NUL !in m
    ensures var u := Run(s, m, t, mem);
            u.queue == Offered(s.queue, m) && u.text == "" && u.remaining == 0 && u.pending == 0
  {
    hide Finish, Parsed, PayloadRun, Run;
    CStringWhole(m);
    PayloadIsExact(s, m, t, mem);
    PayloadCloses(s, m);
    assert "" + m == m;
    var u := PayloadRun(s, m[..|m| - 1]);
    if Parsed(m).valid {
      ClosesObject(u.(text := m, remaining := 0, pending := 0));
    } else {
      ClosesDropped(u.(text := m, remaining := 0, pending := 0));
    }
  }

  /** An object in a +IPD frame that is no message is read off and leaves the queue as it was. */
  lemma FrameDropped(s: Reader, junk: string, m: string, t: nat, mem: nat -> char)
    requires Bounded(s) && s.text == "" && s.remaining == 0 && Quiet(junk) && IsObject(m) && NUL !in m
    requires Nowhere(m, "\"Id\":") && 10 <= |junk + Header(|m|)| <= KEEP_ABOVE
    ensures var u := Run(s, junk + Header(|m|) + m, t, mem);
            u.queue == s.queue && u.text == "" && u.remaining == 0
  {
    hide Run, Header, Buffered, Offered;
    var h := Buffered(junk, |m|, "");
    BufferedIs(junk, |m|, "");
    assert h == junk + Header(|m|);
    HeaderStored(s, junk, |m|, t, mem);
    RunConcat(s, h, m, t, mem);
    NoIdIsDropped(s.queue, m);
    ObjectTaken(s.(remaining := |m|), m, t + |h|, mem);
  }

  /** A byte that makes the buffer exceed 800 bytes leaves its last 512. */
  lemma OverflowKeepsLast(s: Reader, ch: char, stale: char)
    requires Bounded(s) && s.remaining > 0 && |s.text| == 800 && ch != '}'
    ensures Step(s, ch, stale).text == (s.text + [ch])[289..] && |Step(s, ch, stale).text| == 512
    ensures Step(s, ch, stale).queue == s.queue && Step(s, ch, stale).remaining == s.remaining - 1
  {
    hide Parsed;
  }

  // ---- Outside any frame ----

  lemma PlainText(x: string)
    requires '+' !in x && NUL !in x
    ensures Ipd(x) == 0 && Recv(x) == 0 && DataAt(x) == -1
  {
    CStringWhole(x);
    NoMatch(x, IPD, '+');
    NoMatch(x, RECV, '+');
    NoMatch(x, DATA, '+');
    hide Int16, Leading, After, Find;
  }

  lemma PlainByte(s: Reader, ch: char, stale: char)
    requires Bounded(s) && s.remaining == 0 && '+' !in s.text + [ch] && NUL !in s.text + [ch]
    ensures Step(s, ch, stale) == Finish(s.(text := s.text + [ch]), ch)
  {
    PlainText(s.text + [ch]);
    hide Ipd, Recv, DataAt, Finish;
  }

  lemma {:induction false} PlainBytes(s: Reader, bytes: string, t: nat, mem: nat -> char)
    requires Bounded(s) && s.remaining == 0 && |s.text| + |bytes| <= KEEP_ABOVE
    requires '+' !in s.text + bytes && NUL !in s.text + bytes && '}' !in bytes
    ensures Run(s, bytes, t, mem) == s.(text := s.text + bytes)
    decreases |bytes|
  {
    hide Step, Finish, Bounded;
    if bytes == "" {
      assert s.text + bytes == s.text;
    } else {
      var n := |bytes| - 1;
      PlainBytes(s, bytes[..n], t, mem);
      RunBounds(s, bytes[..n], t, mem);
      var u := s.(text := s.text + bytes[..n]);
      assert u.text + [bytes[n]] == s.text + bytes;
      PlainByte(u, bytes[n], mem(t + n));
      StoredUnchanged(s.(text := s.text + bytes), bytes[n]);
    }
  }

  /** An object without a plus sign that comes outside any frame, behind quiet bytes, is taken just
      the same. */
  lemma UnframedObject(s: Reader, m: string, t: nat, mem: nat -> char)
    requires Bounded(s) && s.remaining == 0 && Quiet(s.text) && IsObject(m) && '+' !in m && NUL !in m
    requires |s.text| + |m| <= KEEP_ABOVE
    ensures var u := Run(s, m, t, mem);
            u.queue == Offered(s.queue, m) && u.text == "" && u.remaining == 0 && u.pending == s.pending
  {
    hide Run, Finish, Step, Parsed;
    var n := |m| - 1;
    PlainBytes(s, m[..n], t, mem);
    assert m == m[..n] + ['}'];
    RunConcat(s, m[..n], ['}'], t, mem);
    var u := s.(text := s.text + m[..n]);
    RunOne(u, '}', t + n, mem);
    RunBounds(s, m[..n], t, mem);
    assert u.text + ['}'] == s.text + m;
    PlainByte(u, '}', mem(t + n));
    ClosesBehind(s.(text := s.text + m), s.text, m);
  }

  lemma ClosesBehind(s: Reader, junk: string, m: string)
    requires s.text == junk + m && IsObject(m) && NUL !in m && |s.text| <= KEEP_ABOVE
    ensures var u := Finish(s, '}');
            u.queue == Offered(s.queue, m) && u.text == "" && u.remaining == s.remaining && u.pending == s.pending
  {
    hide Parsed, CString;
    var j := |junk|;
    assert s.text[j] == m[0] && s.text[j..] == m;
    forall i | j < i < |s.text| ensures s.text[i] != '{' {
      assert s.text[i] == m[1..][i - j - 1];
    }
    assert LastBrace(s.text) == j;
    CStringWhole(m);
  }

  // ---- +DATA with a length ----

  function DataHeader(n: nat): string {
    "+DATA," + Show(n) + ":"
  }

  lemma NotOther(junk: string, rest: string)
    requires Quiet(junk) && '+' !in rest && rest != "" && rest[0] == 'D' && NUL !in rest
    ensures Ipd(junk + ("+" + rest)) == 0 && Recv(junk + ("+" + rest)) == 0
  {
    CStringWhole(junk + ("+" + rest));
    OnePlus(junk, rest, IPD);
    OnePlus(junk, rest, RECV);
    hide Int16, Leading, After;
  }

  lemma DataIsAt(junk: string, rest: string)
    requires Quiet(junk) && NUL !in rest && |junk| + 5 + |rest| >= 6
    ensures DataAt(junk + (DATA + rest)) == |junk| + 5 && CString(junk + (DATA + rest)) == junk + (DATA + rest)
  {
    var x := junk + (DATA + rest);
    CStringWhole(x);
    AfterSkips(junk, DATA + rest, DATA);
    AfterHere(DATA, rest);
    hide After;
    DataFound(x);
    AfterIsSuffix(x, DATA);
  }

  lemma DataFound(x: string)
    ensures After(x, DATA).Some? ==> Find(x, DATA) >= 0 && |After(x, DATA).value| == |x| - Find(x, DATA) - 5
  {
  }

  /** A +DATA header with a length, wherever a scan finds it: what the buffer holds behind its colon
      stays, and counts as received payload. */
  lemma DataLengthCounts(s: Reader, junk: string, n: nat, kept: string, ch: char, stale: char)
    requires Bounded(s) && s.remaining == 0 && Quiet(junk) && 0 < n < 0x8000 && '+' !in kept && NUL !in kept
    requires s.text + [ch] == junk + ("+DATA," + Show(n)) + (":" + kept)
    ensures Step(s, ch, stale) == s.(text := kept, remaining := if n <= |kept| then 0 else n - |kept|)
  {
    hide Show, Ipd, Recv, DataAt, Step;
    var r, x := "," + (Show(n) + (":" + kept)), s.text + [ch];
    ShowIsPlain(n);
    DataSpelled(junk, Show(n), kept, x);
    NotOther(junk, "DATA" + r);
    DataIsAt(junk, r);
    LengthRead(n, kept);
    OnlyData(s, ch, stale);
    LengthTaken(s.(text := x), |junk| + 5, Show(n), n, kept, ch, stale);
  }

  lemma DataSpelled(junk: string, d: string, kept: string, x: string)
    requires x == junk + ("+DATA," + d) + (":" + kept)
    ensures x == junk + ("+" + ("DATA" + ("," + (d + (":" + kept))))) == junk + (DATA + ("," + (d + (":" + kept))))
    ensures x[|junk| + 5..] == "," + (d + (":" + kept))
  {
  }

  lemma OnlyData(s: Reader, ch: char, stale: char)
    requires Bounded(s) && s.remaining == 0 && Ipd(s.text + [ch]) == 0 && Recv(s.text + [ch]) == 0
    ensures Step(s, ch, stale) == StepData(s.(text := s.text + [ch]), ch, stale)
  {
    hide Ipd, Recv, StepData;
  }

  lemma LengthRead(n: nat, kept: string)
    requires n < 0x8000
    ensures NumberAt(Show(n) + (":" + kept)) == n
  {
    hide Show, Int16, Leading;
    ParseInvertsItoa(n, ":" + kept);
  }

  lemma LengthTaken(s: Reader, a: nat, d: string, n: nat, kept: string, ch: char, stale: char)
    requires DataAt(s.text) == a && CString(s.text) == s.text && a <= |s.text|
    requires s.text[a..] == "," + (d + (":" + kept)) && ':' !in d && NumberAt(d + (":" + kept)) == n > 0
    ensures StepData(s, ch, stale) == s.(text := kept, remaining := if n <= |kept| then 0 else n - |kept|)
  {
    LengthParts(s.text, a, d, kept);
    FirstColon(d, kept);
    hide DataAt, CString, NumberAt, StepData, ColonAt;
    LengthBranch(s, a, d + (":" + kept), n, |d|, kept, ch, stale);
  }

  lemma LengthBranch(s: Reader, a: nat, q: string, n: nat, k: nat, kept: string, ch: char, stale: char)
    requires DataAt(s.text) == a && CString(s.text) == s.text && a <= |s.text| && s.text[a..] == "," + q
    requires ':' in q && ColonAt(q) == k && NumberAt(q) == n > 0
    requires a + 1 + k + 1 <= |s.text| && s.text[a + 1 + k + 1..] == kept
    ensures StepData(s, ch, stale) == s.(text := kept, remaining := if n <= |kept| then 0 else n - |kept|)
  {
    hide DataAt, CString, NumberAt, Finish, ColonAt;
    assert ("," + q)[1..] == q;
  }

  lemma LengthParts(x: string, a: nat, d: string, kept: string)
    requires a <= |x| && x[a..] == "," + (d + (":" + kept))
    ensures |x| == a + |d| + 2 + |kept| && ':' in d + (":" + kept)
    ensures x[a + 1 + |d| + 1..] == kept
  {
    assert (d + (":" + kept))[|d|] == ':';
    assert x[a..][1 + |d| + 1..] == kept;
  }

  lemma {:induction false} FirstColon(d: string, kept: string)
    requires ':' !in d
    ensures ColonAt(d + (":" + kept)) == |d|
  {
    if d != "" {
      assert (d + (":" + kept))[1..] == d[1..] + (":" + kept);
      FirstColon(d[1..], kept);
    } else {
      assert d + (":" + kept) == ":" + kept;
    }
  }

  /** So an object in a +DATA frame is taken like one in a +IPD frame, and its header may be the
      first thing in the buffer. */
  lemma DataFrameTaken(s: Reader, junk: string, m: string, t: nat, mem: nat -> char)
    requires Bounded(s) && s.text == "" && s.remaining == 0 && Quiet(junk) && IsObject(m) && NUL !in m
    requires |junk + DataHeader(|m|)| <= KEEP_ABOVE
    ensures var u := Run(s, junk + DataHeader(|m|) + m, t, mem);
            u.queue == Offered(s.queue, m) && u.text == "" && u.remaining == 0
  {
    hide Run, Step, Show, Offered;
    var x := junk + ("+DATA," + Show(|m|));
    ShowIsPlain(|m|);
    assert "" + x == x;
    StoresAll(s, x, junk, "+DATA," + Show(|m|), t, mem);
    var u := s.(text := x);
    RunConcat(s, x, [':'], t, mem);
    RunOne(u, ':', t + |x|, mem);
    assert x + [':'] == x + (":" + "");
    DataLengthCounts(u, junk, |m|, "", ':', mem(t + |x|));
    RunConcat(s, x + [':'], m, t, mem);
    assert x + [':'] + m == junk + DataHeader(|m|) + m;
    ObjectTaken(s.(remaining := |m|), m, t + |x| + 1, mem);
  }

  // ---- +RECV, and +DATA without a length ----

  lemma RecvIs(junk: string, d: string, end: string)
    requires Quiet(junk) && AllDigits(d) && end in {"", "\r", "\n"}
    ensures var x := junk + ("+" + ("RECV:" + (d + end)));
            && Ipd(x) == 0 && DataAt(x) == -1
            && (|x| >= 10 ==> Recv(x) == if end == "" || Int16(Value(d)) < 0 then 0 else Int16(Value(d)))
            && (|x| < 10 ==> Recv(x) == 0)
  {
    var x := junk + ("+" + ("RECV:" + (d + end)));
    DigitsArePlain(d);
    NotRecv(junk, "RECV:" + (d + end));
    RecvLength(junk, d, end, x);
    hide Recv;
  }

  lemma NotRecv(junk: string, rest: string)
    requires Quiet(junk) && '+' !in rest && rest != "" && rest[0] == 'R' && NUL !in rest
    ensures var x := junk + ("+" + rest); Ipd(x) == 0 && DataAt(x) == -1 && CString(x) == x
  {
    var x := junk + ("+" + rest);
    CStringWhole(x);
    OnePlus(junk, rest, IPD);
    OnePlus(junk, rest, DATA);
    NotFound(x, DATA);
    hide Int16, Leading, After;
  }

  lemma RecvLength(junk: string, d: string, end: string, x: string)
    requires Quiet(junk) && AllDigits(d) && end in {"", "\r", "\n"} && CString(x) == x
    requires x == junk + ("+" + ("RECV:" + (d + end)))
    ensures |x| >= 10 ==> Recv(x) == if end == "" || Int16(Value(d)) < 0 then 0 else Int16(Value(d))
    ensures |x| < 10 ==> Recv(x) == 0
  {
    hide After, Int16, Value, CString;
    assert x == junk + (RECV + (d + end));
    AfterSkips(junk, RECV + (d + end), RECV);
    AfterHere(RECV, d + end);
    DigitsArePlain(d);
    LeadingOf(d, end);
    hide Leading;
    if end == "" {
      assert d + end == d;
    }
  }

  lemma DigitsArePlain(d: string)
    requires AllDigits(d)
    ensures '+' !in d && ':' !in d && '{' !in d && '}' !in d && NUL !in d && '\r' !in d && '\n' !in d
  {
    assert forall i | 0 <= i < |d| :: IsDigit(d[i]);
  }

  lemma RecvStores(s: Reader, junk: string, d: string, ch: char, stale: char)
    requires Bounded(s) && s.remaining == 0 && Quiet(junk) && AllDigits(d) && |s.text| < KEEP_ABOVE && ch != '}'
    requires s.text + [ch] == junk + ("+" + ("RECV:" + d))
    ensures Step(s, ch, stale) == s.(text := s.text + [ch])
  {
    assert d + "" == d;
    RecvIs(junk, d, "");
    StoredUnchanged(s.(text := s.text + [ch]), ch);
    hide Ipd, Recv, DataAt, Finish;
  }

  lemma {:induction false} RecvDigits(s: Reader, junk: string, d: string, t: nat, mem: nat -> char)
    requires Bounded(s) && s.remaining == 0 && s.text == "" && Quiet(junk) && AllDigits(d)
    requires |junk| + 6 + |d| <= KEEP_ABOVE
    ensures var x := junk + ("+" + ("RECV:" + d)); Run(s, x, t, mem) == s.(text := x)
    decreases |d|
  {
    hide Run, Step;
    var x := junk + ("+" + ("RECV:" + d));
    if d == "" {
      assert "" + (junk + "+RECV") == junk + "+RECV";
      StoresAll(s, junk + "+RECV", junk, "+RECV", t, mem);
      assert x == junk + "+RECV" + [':'];
      RecvNext(s, junk, d, junk + "+RECV", ':', t, mem);
    } else {
      var k := |d| - 1;
      RecvDigits(s, junk, d[..k], t, mem);
      assert d == d[..k] + [d[k]];
      var y := junk + ("+" + ("RECV:" + d[..k]));
      assert x == y + [d[k]];
      DigitsArePlain(d);
      RecvNext(s, junk, d, y, d[k], t, mem);
    }
  }

  lemma RecvNext(s: Reader, junk: string, d: string, y: string, ch: char, t: nat, mem: nat -> char)
    requires Bounded(s) && s.remaining == 0 && Quiet(junk) && AllDigits(d) && ch != '}' && |y| < KEEP_ABOVE
    requires y + [ch] == junk + ("+" + ("RECV:" + d)) && Run(s, y, t, mem) == s.(text := y)
    ensures Run(s, y + [ch], t, mem) == s.(text := y + [ch])
  {
    hide Run, Step;
    RunConcat(s, y, [ch], t, mem);
    RunOne(s.(text := y), ch, t + |y|, mem);
    RecvStores(s.(text := y), junk, d, ch, mem(t + |y|));
  }

  /** A +RECV line announces a length: it is remembered and answered with the command that fetches
      that many bytes. */
  lemma RecvAnswered(s: Reader, junk: string, n: nat, end: string, t: nat, mem: nat -> char)
    requires Bounded(s) && s.text == "" && s.remaining == 0 && Quiet(junk) && 0 < n < 0x8000 && end in {"\r", "\n"}
    requires 10 <= |junk| + 7 + |Show(n)| <= KEEP_ABOVE
    ensures Run(s, junk + "+RECV:" + Show(n) + end, t, mem)
            == s.(pending := n, commands := s.commands + ["AT+CIPRECVDATA=" + Show(n)])
  {
    hide Run, Step, Show, Ipd, Recv, DataAt;
    var d := Show(n);
    ShowIsNumber(n);
    var x := junk + ("+" + ("RECV:" + d));
    RecvDigits(s, junk, d, t, mem);
    assert junk + "+RECV:" + d + end == x + end;
    RunConcat(s, x, end, t, mem);
    var u := s.(text := x);
    assert end == [end[0]];
    RunOne(u, end[0], t + |x|, mem);
    RecvIs(junk, d, end);
    assert x + end == junk + ("+" + ("RECV:" + (d + end)));
    SmallIsItself(n);
    RecvEnds(u, end[0], mem(t + |x|), n);
  }

  lemma RecvEnds(s: Reader, ch: char, stale: char, n: nat)
    requires Bounded(s) && s.remaining == 0 && Ipd(s.text + [ch]) == 0 && Recv(s.text + [ch]) == n > 0
    ensures Step(s, ch, stale)
            == s.(text := "", pending := n, commands := s.commands + ["AT+CIPRECVDATA=" + Show(n)])
  {
    hide Ipd, Recv, Show;
  }

  lemma ShowIsNumber(n: nat)
    ensures AllDigits(Show(n)) && Value(Show(n)) == n
  {
    ShowValue(n);
  }

  /** "+DATA:" without a length, at its colon: while a length is pending the text is replaced by the
      byte behind the buffer's NUL, and the length is forgotten; in any case the header is marked as
      seen, and once it has been seen it is plain text. */
  lemma BareData(s: Reader, junk: string, t: nat, mem: nat -> char)
    requires Bounded(s) && s.text == "" && s.remaining == 0 && Quiet(junk) && |junk| + 6 <= KEEP_ABOVE
    ensures var u, x := Run(s, junk + "+DATA:", t, mem), junk + "+DATA:";
            u == if s.seen then s.(text := x)
                 else if s.pending > 0 then s.(text := [mem(t + |junk| + 5)], pending := 0, seen := true)
                 else s.(text := x, seen := true)
  {
    hide Run, Step;
    var y, x := junk + "+DATA", junk + "+DATA:";
    assert "" + y == y && x == y + [':'];
    StoresAll(s, y, junk, "+DATA", t, mem);
    RunConcat(s, y, [':'], t, mem);
    var u := s.(text := y);
    RunOne(u, ':', t + |y|, mem);
    assert y + [':'] == junk + ("+DATA:" + "");
    BareAnywhere(u, junk, "", ':', mem(t + |y|));
  }

  /** The same wherever a scan finds it: of what follows the colon only the second byte is kept. */
  lemma BareAnywhere(s: Reader, junk: string, rest: string, ch: char, stale: char)
    requires Bounded(s) && s.remaining == 0 && Quiet(junk) && '+' !in rest && NUL !in rest && ch != '}'
    requires s.text + [ch] == junk + ("+DATA:" + rest) && |s.text| < KEEP_ABOVE
    ensures var x := s.text + [ch];
            Step(s, ch, stale)
            == if s.seen then s.(text := x)
               else if s.pending == 0 then s.(text := x, seen := true)
               else s.(text := [if |rest| >= 2 then rest[1] else if |rest| == 1 then NUL else stale],
                       remaining := 0, pending := 0, seen := true)
  {
    hide Ipd, Recv, DataAt, CString, Finish, Step;
    var x, r := s.text + [ch], ":" + rest;
    assert x == junk + ("+" + ("DATA" + r)) == junk + (DATA + r);
    NotOther(junk, "DATA" + r);
    DataIsAt(junk, r);
    OnlyData(s, ch, stale);
    BareTaken(s.(text := x), |junk| + 5, rest, ch, stale);
  }

  lemma BareTaken(s: Reader, a: nat, rest: string, ch: char, stale: char)
    requires Bounded(s) && DataAt(s.text) == a && CString(s.text) == s.text && s.remaining == 0 && ch != '}'
    requires a <= |s.text| && s.text[a..] == ":" + rest
    ensures StepData(s, ch, stale)
            == if s.seen then s
               else if s.pending == 0 then s.(seen := true)
               else s.(text := [if |rest| >= 2 then rest[1] else if |rest| == 1 then NUL else stale],
                       remaining := 0, pending := 0, seen := true)
  {
    hide DataAt, CString, Finish, NumberAt;
    assert |s.text| == a + 1 + |rest| && (|rest| >= 2 ==> s.text[a + 2] == s.text[a..][2] == rest[1]);
    var kept := if |rest| >= 2 then rest[1] else if |rest| == 1 then NUL else stale;
    StoredUnchanged(s, ch);
    StoredUnchanged(s.(seen := true), ch);
    StoredUnchanged(s.(text := [kept], remaining := 0, pending := 0, seen := true), ch);
  }

  /** The passive exchange: the length is announced and fetched, and the object that comes behind
      "+DATA:" is taken, though nothing counts its bytes any more. */
  lemma FetchedObjectTaken(s: Reader, junk: string, n: nat, m: string, t: nat, mem: nat -> char)
    requires Bounded(s) && s.text == "" && s.remaining == 0 && !s.seen && Quiet(junk) && 0 < n < 0x8000
    requires 10 <= |junk| + 7 + |Show(n)| <= KEEP_ABOVE
    requires IsObject(m) && '+' !in m && NUL !in m && |m| < KEEP_ABOVE
    requires var stale := mem(t + |junk| + 7 + |Show(n)| + 5); stale != '+' && stale != NUL
    ensures var u := Run(s, junk + "+RECV:" + Show(n) + "\r" + "+DATA:" + m, t, mem);
            && u.queue == Offered(s.queue, m) && u.text == "" && u.remaining == 0 && u.pending == 0
            && u.commands == s.commands + ["AT+CIPRECVDATA=" + Show(n)]
  {
    hide Run, Step, Show, Offered;
    var a := junk + "+RECV:" + Show(n) + "\r";
    RecvAnswered(s, junk, n, "\r", t, mem);
    var u := s.(pending := n, commands := s.commands + ["AT+CIPRECVDATA=" + Show(n)]);
    RunConcat(s, a, "+DATA:", t, mem);
    BareData(u, "", t + |a|, mem);
    assert "" + "+DATA:" == "+DATA:";
    var v := Run(u, "+DATA:", t + |a|, mem);
    RunConcat(s, a + "+DATA:", m, t, mem);
    UnframedObject(v, m, t + |a| + 6, mem);
    CommandsStay(v, m, t + |a| + 6, mem);
  }

  /** Bytes without a plus sign send no command. */
  lemma CommandsStay(s: Reader, m: string, t: nat, mem: nat -> char)
    requires Bounded(s) && s.remaining == 0 && Quiet(s.text) && IsObject(m) && '+' !in m && NUL !in m
    requires |s.text| + |m| <= KEEP_ABOVE
    ensures Run(s, m, t, mem).commands == s.commands
  {
    hide Run, Finish, Step;
    var n := |m| - 1;
    PlainBytes(s, m[..n], t, mem);
    assert m == m[..n] + ['}'];
    RunConcat(s, m[..n], ['}'], t, mem);
    var u := s.(text := s.text + m[..n]);
    RunOne(u, '}', t + n, mem);
    RunBounds(s, m[..n], t, mem);
    assert u.text + ['}'] == s.text + m;
    PlainByte(u, '}', mem(t + n));
    FinishSendsNothing(s.(text := s.text + m), '}');
  }

  lemma FinishSendsNothing(s: Reader, ch: char)
    ensures Finish(s, ch).commands == s.commands
  {
    hide Parsed;
  }
}
