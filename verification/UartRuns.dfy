/** The reader over whole byte streams, and what becomes of a message sent to it in a frame. */
module UartRuns {
  import opened Decimal
  import opened Search
  import opened Identifiers
  import opened Message
  import opened UartState
  import opened Wrappers

  /** The reader after these bytes; `mem(i)` is the stale byte that step i may come upon. */
  function Run(s: Reader, bytes: string, t: nat, mem: nat -> char): Reader {
    if bytes == "" then s
    else
      var n := |bytes| - 1;
      Step(Run(s, bytes[..n], t, mem), bytes[n], mem(t + n))
  }

  lemma {:induction false} RunConcat(s: Reader, a: string, b: string, t: nat, mem: nat -> char)
    ensures Run(s, a + b, t, mem) == Run(Run(s, a, t, mem), b, t + |a|, mem)
    decreases |b|
  {
    hide Step;
    if b == "" {
      assert a + b == a;
    } else {
      var n := |b| - 1;
      RunConcat(s, a, b[..n], t, mem);
      assert (a + b)[..|a| + n] == a + b[..n];
    }
  }

  lemma RunOne(s: Reader, ch: char, t: nat, mem: nat -> char)
    ensures Run(s, [ch], t, mem) == Step(s, ch, mem(t))
  {
    assert [ch][..0] == "";
    assert Run(s, "", t, mem) == s;
  }

  /** For every byte stream: the buffer never holds more than 800 bytes between steps, the payload
      count is never negative, and the queue never overflows. */
  lemma {:induction false} RunBounds(s: Reader, bytes: string, t: nat, mem: nat -> char)
    requires Bounded(s)
    ensures Bounded(Run(s, bytes, t, mem))
  {
    hide Step, Bounded;
    if bytes != "" {
      var n := |bytes| - 1;
      RunBounds(s, bytes[..n], t, mem);
      StepBounds(Run(s, bytes[..n], t, mem), bytes[n], mem(t + n));
    }
  }

  // ---- Payload ----

  /** What a byte does while payload is expected: it is stored and counted; no header matters. */
  function PayloadStep(s: Reader, ch: char): Reader {
    Count(s.(text := Append(s.text, ch)), ch)
  }

  function PayloadRun(s: Reader, bytes: string): Reader {
    if bytes == "" then s else PayloadStep(PayloadRun(s, bytes[..|bytes| - 1]), bytes[|bytes| - 1])
  }

  /** Once n payload bytes are announced, the next n bytes are payload whatever they spell, and
      then none is expected: header scanning resumes exactly there. */
  lemma {:induction false} PayloadIsExact(s: Reader, bytes: string, t: nat, mem: nat -> char)
    requires Bounded(s) && |bytes| <= s.remaining
    ensures Run(s, bytes, t, mem) == PayloadRun(s, bytes)
    ensures Run(s, bytes, t, mem).remaining == s.remaining - |bytes|
  {
    hide Finish, Ipd, Recv, StepData;
    if bytes != "" {
      var n := |bytes| - 1;
      PayloadIsExact(s, bytes[..n], t, mem);
      RunBounds(s, bytes[..n], t, mem);
      var u := Run(s, bytes[..n], t, mem);
      StepBounds(u, bytes[n], mem(t + n));
      FinishBounds(u.(text := Append(u.text, bytes[n]), remaining := u.remaining - 1,
                      pending := if u.remaining == 1 then 0 else u.pending), bytes[n]);
    }
  }

  /** Payload without a closing brace just fills the buffer. */
  lemma {:induction false} PayloadFills(s: Reader, bytes: string)
    requires Bounded(s) && |bytes| <= s.remaining && '}' !in bytes && |s.text| + |bytes| <= KEEP_ABOVE
    ensures var u := PayloadRun(s, bytes);
            && u.text == s.text + bytes && u.remaining == s.remaining - |bytes|
            && u.queue == s.queue && u.seen == s.seen
  {
    hide Parsed, LastBrace;
    if bytes == "" {
      assert s.text + bytes == s.text;
    } else {
      var n := |bytes| - 1;
      PayloadFills(s, bytes[..n]);
      assert s.text + bytes[..n] + [bytes[n]] == s.text + bytes;
    }
  }

  // ---- A frame ----

  /** The message formats: one object, with no other brace. */
  predicate IsObject(m: string) {
    && 2 <= |m| <= KEEP_ABOVE && m[0] == '{' && m[|m| - 1] == '}'
    && '{' !in m[1..] && '}' !in m[..|m| - 1]
  }

  lemma ClosesObject(s: Reader)
    requires 0 < |s.text| <= KEEP_ABOVE && s.text[0] == '{' && '{' !in s.text[1..] && Parsed(CString(s.text)).valid
    ensures Finish(s, '}') == s.(text := "", queue := Enqueue(s.queue, Parsed(CString(s.text))), seen := false)
  {
    hide Parsed, CString;
    forall i | 1 <= i < |s.text| ensures s.text[i] != '{' {
      assert s.text[i] == s.text[1..][i - 1];
    }
    assert LastBrace(s.text) == 0;
    assert s.text[0..] == s.text;
  }

  lemma ClosesNothing(s: Reader)
    requires |s.text| <= KEEP_ABOVE && '{' !in s.text
    ensures Finish(s, '}') == s
  {
    hide Parsed, CString;
  }

  lemma PayloadCloses(s: Reader, p: string)
    requires Bounded(s) && 0 < |p| <= s.remaining && '}' !in p[..|p| - 1] && |s.text| + |p| <= KEEP_ABOVE
    requires p[|p| - 1] == '}'
    ensures var u := PayloadRun(s, p[..|p| - 1]);
            && PayloadRun(s, p) == Finish(u.(text := s.text + p, remaining := s.remaining - |p|,
                                             pending := if s.remaining == |p| then 0 else u.pending), '}')
            && u.queue == s.queue && u.seen == s.seen
  {
    hide Finish, PayloadStep;
    PayloadFills(s, p[..|p| - 1]);
    assert s.text + p[..|p| - 1] + [p[|p| - 1]] == s.text + p;
    PayloadStepIs(PayloadRun(s, p[..|p| - 1]), '}');
  }

  lemma PayloadStepIs(s: Reader, ch: char)
    requires |s.text| < KEEP_ABOVE
    ensures PayloadStep(s, ch)
            == Finish(s.(text := s.text + [ch], remaining := s.remaining - 1,
                         pending := if s.remaining == 1 then 0 else s.pending), ch)
  {
    hide Finish;
  }

  /** The payload of an object that is counted from its first byte: it is queued. */
  lemma ObjectQueued(s: Reader, m: string, t: nat, mem: nat -> char)
    requires Bounded(s) && s.text == "" && s.remaining == |m| && IsObject(m) && Parsed(CString(m)).valid
    ensures var u := Run(s, m, t, mem);
            && u.queue == Enqueue(s.queue, Parsed(CString(m)))
            && u.text == "" && u.remaining == 0 && !u.seen
  {
    hide Finish, Parsed, CString, PayloadRun, Run;
    PayloadIsExact(s, m, t, mem);
    PayloadCloses(s, m);
    assert "" + m == m;
    var u := PayloadRun(s, m[..|m| - 1]);
    ClosesObject(u.(text := m, remaining := 0, pending := 0));
  }

  /** An object whose first bytes are missing stays in the buffer unread, and one more byte of
      payload is expected for each byte that was lost. */
  lemma ObjectLost(s: Reader, m: string, lost: nat, t: nat, mem: nat -> char)
    requires Bounded(s) && s.text == "" && s.remaining == |m| && IsObject(m) && 0 < lost < |m|
    ensures var u := Run(s, m[lost..], t, mem);
            && u.queue == s.queue && u.text == m[lost..] && u.remaining == lost
  {
    hide Finish, Parsed, CString, PayloadRun, Run;
    var p := m[lost..];
    PayloadIsExact(s, p, t, mem);
    assert p[..|p| - 1] == m[..|m| - 1][lost..];
    PayloadCloses(s, p);
    assert "" + p == p;
    assert p == m[1..][lost - 1..];
    var u := PayloadRun(s, p[..|p| - 1]);
    ClosesNothing(u.(text := p, remaining := lost));
  }

  // ---- Its header ----

  /** Bytes in front of a header that hold no object and cannot be mistaken for a header. */
  predicate Quiet(junk: string) {
    '+' !in junk && NUL !in junk && ('{' !in junk || '}' !in junk)
  }

  function Header(n: nat): string {
    "+IPD," + Show(n) + ":"
  }

  lemma {:induction false} CStringWhole(s: string)
    requires NUL !in s
    ensures CString(s) == s
  {
    if s != "" {
      CStringWhole(s[1..]);
      assert s == [s[0]] + s[1..];
    }
  }

  lemma FoundIsInside(s: string, needle: string)
    ensures Find(s, needle) >= 0 ==> forall c :: c in needle ==> c in s
  {
    var k := Find(s, needle);
    if k >= 0 {
      forall c | c in needle ensures c in s {
        var i :| 0 <= i < |needle| && needle[i] == c;
        assert s[k..][i] == s[k + i];
      }
    }
  }

  lemma NoMatch(s: string, needle: string, c: char)
    requires c in needle && c !in s
    ensures After(s, needle) == None && Find(s, needle) == -1
  {
    FoundIsInside(s, needle);
  }

  lemma AfterIsSuffix(s: string, needle: string)
    ensures After(s, needle).Some? ==>
              var r := After(s, needle).value; |r| + |needle| <= |s| && r == s[|s| - |r|..]
  {
  }

  /** The text is quiet bytes and the beginning of a header: without its colon no header is
      complete, so the next byte is just stored. */
  predicate Beginning(text: string, junk: string, tail: string) {
    text == junk + tail && Quiet(junk) && ':' !in tail && '{' !in tail && '}' !in tail && NUL !in tail
  }

  lemma StoresByte(s: Reader, ch: char, stale: char, junk: string, tail: string)
    requires Bounded(s) && s.remaining == 0 && |s.text| < KEEP_ABOVE && Beginning(s.text + [ch], junk, tail)
    requires ch == '}' ==> '{' !in s.text + [ch]
    ensures Step(s, ch, stale) == s.(text := s.text + [ch])
  {
    var x := s.text + [ch];
    NothingComplete(x, junk, tail);
    hide Ipd, Recv, DataAt, CString, Finish;
    StoredUnchanged(s.(text := x), ch);
  }

  lemma NothingComplete(x: string, junk: string, tail: string)
    requires Beginning(x, junk, tail)
    ensures Ipd(x) == 0 && Recv(x) == 0 && CString(x) == x
    ensures 0 <= DataAt(x) <= |x| ==> ':' !in x[DataAt(x)..]
  {
    CStringWhole(x);
    NoHeaderIn(junk, tail, IPD);
    NoHeaderIn(junk, tail, RECV);
    NoHeaderIn(junk, tail, DATA);
    NoMatch(tail, RECV, ':');
    AfterSkips(junk, tail, RECV);
    hide Int16, Leading, Find, After;
    if DataAt(x) >= 0 {
      DataIsAfter(x);
    }
  }

  /** What follows a header's name has no colon yet. */
  lemma NoHeaderIn(junk: string, tail: string, header: string)
    requires '+' !in junk && ':' !in tail && header != "" && header[0] == '+'
    ensures match After(junk + tail, header) case None => true case Some(r) => ':' !in r
  {
    AfterSkips(junk, tail, header);
    AfterIsSuffix(tail, header);
  }

  lemma DataIsAfter(x: string)
    ensures DataAt(x) >= 0 ==> After(CString(x), DATA) == Some(CString(x)[DataAt(x)..])
  {
  }

  lemma StoredUnchanged(s: Reader, ch: char)
    requires |s.text| <= KEEP_ABOVE && (ch == '}' ==> '{' !in s.text)
    ensures Finish(s, ch) == s
  {
    hide Parsed, CString;
  }

  lemma {:induction false} StoresAll(s: Reader, bytes: string, junk: string, tail: string, t: nat, mem: nat -> char)
    requires Bounded(s) && s.remaining == 0 && |s.text| + |bytes| <= KEEP_ABOVE
    requires Beginning(s.text + bytes, junk, tail)
    ensures Run(s, bytes, t, mem) == s.(text := s.text + bytes)
    decreases |bytes|
  {
    hide Step;
    if bytes == "" {
      assert s.text + bytes == s.text;
    } else {
      var n := |bytes| - 1;
      var x, y := s.text + bytes[..n], s.text + bytes;
      assert x + [bytes[n]] == y && x == y[..|x|];
      if |x| <= |junk| {
        assert x == junk[..|x|] + "";
        StoresAll(s, bytes[..n], junk[..|x|], "", t, mem);
      } else {
        assert x == junk + tail[..|x| - |junk|];
        StoresAll(s, bytes[..n], junk, tail[..|x| - |junk|], t, mem);
      }
      BraceIsLone(y, junk, tail);
      StoresByte(s.(text := x), bytes[n], mem(t + n), junk, tail);
    }
  }

  lemma BraceIsLone(text: string, junk: string, tail: string)
    requires Beginning(text, junk, tail)
    ensures '}' in text ==> '{' !in text
  {
  }

  /** One plus sign, and what follows it is not what the needle needs. */
  lemma OnePlus(junk: string, rest: string, needle: string)
    requires '+' !in junk && '+' !in rest && rest != "" && |needle| > 1 && needle[0] == '+' && needle[1] != rest[0]
    ensures After(junk + ("+" + rest), needle) == None
  {
    hide After;
    AfterSkips(junk, "+" + rest, needle);
    assert ("+" + rest)[1] == rest[0];
    AfterSkipsOne("+" + rest, needle);
    assert ("+" + rest)[1..] == rest;
    AfterSkips(rest, "", needle);
    assert rest + "" == rest;
    AfterNothing(needle);
  }

  /** What the buffer holds when a header and perhaps a little of the payload have come. */
  function Buffered(junk: string, n: nat, more: string): string {
    junk + ("+" + ("IPD," + Show(n) + ":" + more))
  }

  lemma ShowIsPlain(n: nat)
    ensures '+' !in Show(n) && ':' !in Show(n) && '{' !in Show(n) && '}' !in Show(n) && NUL !in Show(n)
  {
    assert AllDigits(Show(n));
    assert forall i | 0 <= i < |Show(n)| :: IsDigit(Show(n)[i]);
  }

  lemma HeaderFound(junk: string, n: nat, more: string)
    requires Quiet(junk) && 0 < n < 0x8000 && NUL !in more
    ensures |Buffered(junk, n, more)| >= 10 ==> Ipd(Buffered(junk, n, more)) == n
  {
    hide Show, After, Leading, Int16;
    var x, r := Buffered(junk, n, more), Show(n) + (":" + more);
    ShowIsPlain(n);
    CStringWhole(x);
    assert x == junk + (IPD + r);
    AfterSkips(junk, IPD + r, IPD);
    AfterHere(IPD, r);
    ParseInvertsItoa(n, ":" + more);
  }

  lemma BufferedIs(junk: string, n: nat, more: string)
    ensures Buffered(junk, n, more) == junk + Header(n) + more
  {
    hide Show;
  }

  lemma BufferedSnoc(junk: string, n: nat, more: string, ch: char)
    ensures Buffered(junk, n, more + [ch]) == Buffered(junk, n, more) + [ch]
  {
    BufferedIs(junk, n, more + [ch]);
    BufferedIs(junk, n, more);
    hide Buffered, Header;
    assert junk + Header(n) + (more + [ch]) == junk + Header(n) + more + [ch];
  }

  lemma BufferedIsNoData(junk: string, n: nat, more: string)
    requires Quiet(junk) && '+' !in more && NUL !in more
    ensures DataAt(Buffered(junk, n, more)) == -1
  {
    hide Show, After, Find;
    var x := Buffered(junk, n, more);
    ShowIsPlain(n);
    CStringWhole(x);
    OnePlus(junk, "IPD," + Show(n) + ":" + more, DATA);
    NotFound(x, DATA);
  }

  lemma NotFound(s: string, needle: string)
    requires After(s, needle) == None
    ensures Find(s, needle) == -1
  {
  }

  /** Below ten bytes neither +IPD nor +RECV is looked for, and the text is no +DATA header. */
  lemma StoresShort(s: Reader, junk: string, n: nat, more: string, ch: char, stale: char)
    requires Bounded(s) && s.remaining == 0 && ch != '}'
    requires Quiet(junk) && '+' !in more && NUL !in more && |Buffered(junk, n, more)| < 10
    requires s.text + [ch] == Buffered(junk, n, more)
    ensures Step(s, ch, stale) == s.(text := s.text + [ch])
  {
    BufferedIsNoData(junk, n, more);
    hide Buffered, DataAt, Announced;
  }

  /** The bytes up to the header's colon. */
  lemma HeaderStored(s: Reader, junk: string, n: nat, t: nat, mem: nat -> char)
    requires Bounded(s) && s.text == "" && s.remaining == 0 && Quiet(junk) && 0 < n < 0x8000
    requires |Buffered(junk, n, "")| <= KEEP_ABOVE
    ensures var h := Buffered(junk, n, "");
            Run(s, h, t, mem) == if |h| >= 10 then s.(remaining := n) else s.(text := h)
  {
    hide Step, Show, Buffered, Run, Ipd;
    var x := junk + "+IPD," + Show(n);
    ShowIsPlain(n);
    assert "" + x == x == junk + ("+IPD," + Show(n));
    BufferedIs(junk, n, "");
    assert x + [':'] == Buffered(junk, n, "");
    StoresAll(s, x, junk, "+IPD," + Show(n), t, mem);
    RunConcat(s, x, [':'], t, mem);
    var u := s.(text := x);
    RunOne(u, ':', t + |x|, mem);
    if |Buffered(junk, n, "")| >= 10 {
      HeaderFound(junk, n, "");
      StepOnIpd(u, ':', mem(t + |x|), n);
    } else {
      StoresShort(u, junk, n, "", ':', mem(t + |x|));
    }
  }

  lemma StepOnIpd(s: Reader, ch: char, stale: char, n: int)
    requires Bounded(s) && s.remaining == 0 && n > 0 && Ipd(s.text + [ch]) == n
    ensures Step(s, ch, stale) == s.(text := "", remaining := n)
  {
    hide Ipd;
  }

  /** After a header that is still too short to be looked for, payload bytes are stored behind it. */
  lemma {:induction false} SwallowsStart(s: Reader, junk: string, n: nat, p: string, t: nat, mem: nat -> char)
    requires Bounded(s) && s.text == "" && s.remaining == 0 && Quiet(junk) && 0 < n < 0x8000
    requires |Buffered(junk, n, p)| < 10 && '+' !in p && '}' !in p && NUL !in p
    ensures Run(s, Buffered(junk, n, p), t, mem) == s.(text := Buffered(junk, n, p))
    decreases |p|
  {
    hide Step, Show, Run, Buffered;
    if p == "" {
      HeaderStored(s, junk, n, t, mem);
    } else {
      var k := |p| - 1;
      assert p == p[..k] + [p[k]];
      BufferedSnoc(junk, n, p[..k], p[k]);
      SwallowsStart(s, junk, n, p[..k], t, mem);
      var x := Buffered(junk, n, p[..k]);
      RunConcat(s, x, [p[k]], t, mem);
      var u := s.(text := x);
      RunOne(u, p[k], t + |x|, mem);
      StoresShort(u, junk, n, p, p[k], mem(t + |x|));
    }
  }

  /** Up to the byte that makes ten: the header is recognised and everything before is dropped. */
  lemma TenthByte(s: Reader, junk: string, n: nat, p: string, t: nat, mem: nat -> char)
    requires Bounded(s) && s.text == "" && s.remaining == 0 && Quiet(junk) && 0 < n < 0x8000
    requires p != "" && |Buffered(junk, n, p)| == 10 && '+' !in p && '}' !in p && NUL !in p
    ensures Run(s, Buffered(junk, n, p), t, mem) == s.(remaining := n)
  {
    hide Step, Show, Run, Buffered, Ipd;
    var k := |p| - 1;
    assert p == p[..k] + [p[k]];
    BufferedSnoc(junk, n, p[..k], p[k]);
    SwallowsStart(s, junk, n, p[..k], t, mem);
    var x := Buffered(junk, n, p[..k]);
    RunConcat(s, x, [p[k]], t, mem);
    var u := s.(text := x);
    RunOne(u, p[k], t + |x|, mem);
    HeaderFound(junk, n, p);
    StepOnIpd(u, p[k], mem(t + |x|), n);
  }

  /** A frame whose header is at least ten bytes into the buffer when its colon comes: the object
      is parsed and queued, and the reader is idle again. */
  lemma FrameArrives(s: Reader, junk: string, m: string, t: nat, mem: nat -> char)
    requires Bounded(s) && s.text == "" && s.remaining == 0 && Quiet(junk) && IsObject(m) && NUL !in m
    requires Parsed(m).valid && 10 <= |junk + Header(|m|)| <= KEEP_ABOVE
    ensures var u := Run(s, junk + Header(|m|) + m, t, mem);
            u.queue == Enqueue(s.queue, Parsed(m)) && u.text == "" && u.remaining == 0
  {
    hide Run, Parsed, Header, Buffered;
    var h := Buffered(junk, |m|, "");
    BufferedIs(junk, |m|, "");
    assert h == junk + Header(|m|);
    HeaderStored(s, junk, |m|, t, mem);
    RunConcat(s, h, m, t, mem);
    CStringWhole(m);
    ObjectQueued(s.(remaining := |m|), m, t + |h|, mem);
  }

  /** A shorter header is recognised only at the buffer's tenth byte: the payload bytes up to there
      are thrown away with it, and the object is never parsed. */
  lemma FrameLost(s: Reader, junk: string, m: string, t: nat, mem: nat -> char)
    requires Bounded(s) && s.text == "" && s.remaining == 0 && Quiet(junk) && IsObject(m) && NUL !in m
    requires var lost := 10 - |junk + Header(|m|)|; 0 < lost < |m| && '+' !in m[..lost]
    ensures var u := Run(s, junk + Header(|m|) + m, t, mem);
            u.queue == s.queue && u.remaining == 10 - |junk + Header(|m|)|
  {
    hide Run, Header, Buffered;
    var lost := 10 - |junk + Header(|m|)|;
    var h := Buffered(junk, |m|, m[..lost]);
    BufferedIs(junk, |m|, m[..lost]);
    assert m[..lost] == m[..|m| - 1][..lost];
    TenthByte(s, junk, |m|, m[..lost], t, mem);
    RunConcat(s, h, m[lost..], t, mem);
    assert h + m[lost..] == junk + Header(|m|) + m;
    ObjectLost(s.(remaining := |m|), m, lost, t + |h|, mem);
  }

  // ---- Frame after frame ----

  datatype Frame = Frame(junk: string, m: string)

  /** Quiet bytes, the header and the object. */
  function FrameBytes(f: Frame): string {
    f.junk + Header(|f.m|) + f.m
  }

  function Stream(frames: seq<Frame>): string {
    if frames == [] then "" else FrameBytes(frames[0]) + Stream(frames[1..])
  }

  /** A frame that FrameArrives speaks of. */
  predicate Readable(f: Frame) {
    && Quiet(f.junk) && IsObject(f.m) && NUL !in f.m && Parsed(f.m).valid
    && 10 <= |f.junk + Header(|f.m|)| <= KEEP_ABOVE
  }

  function Responses(frames: seq<Frame>): (r: seq<Response>)
    ensures |r| == |frames|
  {
    if frames == [] then [] else [Parsed(frames[0].m)] + Responses(frames[1..])
  }

  /** How many of n responses still go into the queue. */
  function Room(queue: seq<Response>, n: nat): (r: nat)
    ensures r <= n
  {
    if |queue| + n <= 10 then n
    else if |queue| <= 10 then 10 - |queue|
    else 0
  }

  /** Any number of such frames: the objects arrive in order, as many as the queue has room for, and
      the reader is idle again. */
  lemma {:induction false} FramesArrive(s: Reader, frames: seq<Frame>, t: nat, mem: nat -> char)
    requires Bounded(s) && s.text == "" && s.remaining == 0
    requires forall i | 0 <= i < |frames| :: Readable(frames[i])
    ensures var u := Run(s, Stream(frames), t, mem);
            && u.queue == s.queue + Responses(frames)[..Room(s.queue, |frames|)]
            && u.text == "" && u.remaining == 0
    decreases |frames|
  {
    hide Run, Parsed, Readable, FrameBytes;
    if frames == [] {
      NothingRead(s, t, mem);
    } else {
      var f, rest := frames[0], frames[1..];
      ReadableArrives(s, f, t, mem);
      RunBounds(s, FrameBytes(f), t, mem);
      RunConcat(s, FrameBytes(f), Stream(rest), t, mem);
      var v := Run(s, FrameBytes(f), t, mem);
      FramesArrive(v, rest, t + |FrameBytes(f)|, mem);
      QueuedThenRest(s.queue, Parsed(f.m), Responses(rest));
    }
  }

  lemma NothingRead(s: Reader, t: nat, mem: nat -> char)
    ensures Run(s, "", t, mem) == s && s.queue + Responses([])[..Room(s.queue, 0)] == s.queue
  {
  }

  lemma ReadableArrives(s: Reader, f: Frame, t: nat, mem: nat -> char)
    requires Bounded(s) && s.text == "" && s.remaining == 0 && Readable(f)
    ensures var u := Run(s, FrameBytes(f), t, mem);
            u.queue == Enqueue(s.queue, Parsed(f.m)) && u.text == "" && u.remaining == 0
  {
    hide Run, Parsed;
    FrameArrives(s, f.junk, f.m, t, mem);
  }

  lemma QueuedThenRest(queue: seq<Response>, r: Response, rest: seq<Response>)
    requires |queue| <= RESPONSE_QUEUE_SIZE
    ensures Enqueue(queue, r) + rest[..Room(Enqueue(queue, r), |rest|)]
            == queue + ([r] + rest)[..Room(queue, |rest| + 1)]
  {
    var n := Room(queue, |rest| + 1);
    if n > 0 {
      assert ([r] + rest)[..n] == [r] + rest[..n - 1];
    }
  }
}
