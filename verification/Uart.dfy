/** The reader's static buffer and flags, updated in place byte by byte, and the response queue
    (src/tcp_uart.c). */
module Uart {
  import opened Decimal
  import opened Search
  import opened Identifiers
  import opened Message
  import opened UartState

  // ---- The response queue ----

  /** The i-th place behind `from` around the ring. */
  function Place(from: nat, i: nat): nat {
    if from + i < RESPONSE_QUEUE_SIZE then from + i else from + i - RESPONSE_QUEUE_SIZE
  }

  class ResponseQueue {
    const messages: array<Response>
    var writeIdx: nat
    var readIdx: nat
    var count: nat

    predicate Valid()
      reads this
    {
      && messages.Length == RESPONSE_QUEUE_SIZE && readIdx < RESPONSE_QUEUE_SIZE && count <= RESPONSE_QUEUE_SIZE
      && writeIdx == Place(readIdx, count)
    }

    /** The waiting responses, oldest first. */
    function Contents(): (c: seq<Response>)
      requires Valid()
      reads this, messages
      ensures |c| == count
    {
      seq(count, i requires 0 <= i < count reads this, messages requires Valid() =>
        messages[Place(readIdx, i)])
    }

    constructor ()
      ensures Valid() && Contents() == [] && fresh(messages)
    {
      messages := new Response[RESPONSE_QUEUE_SIZE](_ => Response(-1, "", "", "", false));
      writeIdx, readIdx, count := 0, 0, 0;
    }

    method QueuePut(msg: Response) returns (ok: bool)
      requires Valid()
      modifies this`writeIdx, this`count, messages
      ensures Valid() && Contents() == Enqueue(old(Contents()), msg)
      ensures ok <==> |old(Contents())| < 10
    {
      if count >= RESPONSE_QUEUE_SIZE {
        return false;
      }
      messages[writeIdx] := msg;
      writeIdx := (writeIdx + 1) % RESPONSE_QUEUE_SIZE;
      count := count + 1;
      return true;
    }

    method QueueGet() returns (ok: bool, msg: Response)
      requires Valid()
      modifies this`readIdx, this`count
      ensures Valid() && (ok <==> old(Contents()) != [])
      ensures ok ==> old(Contents()) == [msg] + Contents()
      ensures !ok ==> Contents() == []
    {
      msg := messages[readIdx];
      if count == 0 {
        return false, msg;
      }
      ghost var c := Contents();
      readIdx := (readIdx + 1) % RESPONSE_QUEUE_SIZE;
      count := count - 1;
      forall i | 0 <= i < count ensures Contents()[i] == c[1..][i] {
        assert c[1..][i] == c[i + 1];
      }
      assert c[0] == msg && Contents() == c[1..];
      return true, msg;
    }
  }

  lemma {:induction false} CStringStops(s: string, rest: string)
    ensures CString(s + ([NUL] + rest)) == CString(s)
  {
    if s == "" {
      assert s + ([NUL] + rest) == [NUL] + rest;
    } else {
      assert (s + ([NUL] + rest))[1..] == s[1..] + ([NUL] + rest);
      CStringStops(s[1..], rest);
    }
  }

  lemma AnnouncedAt(text: string, header: string, complete: string -> bool)
    ensures var cs := CString(text);
            var k := Find(cs, header);
            Announced(text, header, complete)
            == if k < 0 then 0
               else
                 var rest := cs[k + |header|..];
                 if complete(rest) && NumberAt(rest) > 0 then NumberAt(rest) else 0
  {
    hide CString, Int16, Leading, Find;
  }

  method FindColon(s: string, from: nat) returns (at: nat)
    requires from <= |s|
    ensures from <= at <= |s| && at - from == ColonAt(s[from..]) && (at < |s| <==> ':' in s[from..])
  {
    at := from;
    while at < |s| && s[at] != ':'
      invariant from <= at <= |s| && at - from + ColonAt(s[at..]) == ColonAt(s[from..])
    {
      assert s[at..][1..] == s[at + 1..];
      at := at + 1;
    }
  }

  method FindLineEnd(s: string, from: nat) returns (at: nat)
    requires from <= |s|
    ensures from <= at <= |s| && (at < |s| <==> HasLineEnd(s[from..]))
  {
    at := from;
    while at < |s| && s[at] != '\r' && s[at] != '\n'
      invariant from <= at <= |s| && (HasLineEnd(s[from..]) <==> HasLineEnd(s[at..]))
    {
      assert s[at..] == [s[at]] + s[at + 1..];
      at := at + 1;
    }
    assert at < |s| ==> s[at..][0] == s[at];
  }

  /** The text behind the colon, and what is missing of the announced length. */
  function Kept(s: Reader, a: nat, x: string): Reader
    requires ':' in x && a + 1 + |x| <= |s.text|
  {
    var kept := s.text[a + 1 + ColonAt(x) + 1..];
    s.(text := kept, remaining := if NumberAt(x) > |kept| then NumberAt(x) - |kept| else 0)
  }

  /** Whether a length is announced behind "+DATA," and its colon has come. */
  predicate TakesLengthed(s: Reader, a: nat) {
    var cs := CString(s.text);
    a < |cs| && cs[a] == ',' && ':' in cs[a + 1..] && NumberAt(cs[a + 1..]) > 0
  }

  predicate TakesBare(s: Reader, a: nat) {
    var cs := CString(s.text);
    a < |cs| && cs[a] == ':' && !s.seen
  }

  lemma StepDataCases(s: Reader, ch: char, stale: char)
    ensures var a, u := DataAt(s.text), StepData(s, ch, stale);
            if a >= 0 && TakesLengthed(s, a) then u == Kept(s, a, CString(s.text)[a + 1..])
            else if a >= 0 && TakesBare(s, a) then u == Finish(Bare(s, a, stale), ch)
            else u == Finish(s, ch)
  {
    hide Finish, CString, DataAt, Bare, NumberAt;
    var cs, a := CString(s.text), DataAt(s.text);
    if 0 <= a < |cs| {
      assert cs[a..][0] == cs[a] && cs[a..][1..] == cs[a + 1..];
    }
  }

  // ---- The reader ----

  class UartReader {
    const readBuffer: array<char>
    var bufPos: nat
    var payloadRemaining: int
    var pendingRecvLen: int
    var dataResponseSeen: bool
    const queue: ResponseQueue
    /** The commands sent to the modem so far. */
    var commands: seq<string>

    /** The buffer is terminated where its text ends. */
    predicate Valid()
      reads this, readBuffer, queue
    {
      && readBuffer.Length == BUFFER_SIZE && bufPos < BUFFER_SIZE && readBuffer[bufPos] == NUL
      && queue.Valid()
    }

    function Text(): string
      requires Valid()
      reads this, readBuffer, queue
    {
      readBuffer[..bufPos]
    }

    function View(): Reader
      requires Valid()
      reads this, readBuffer, queue, queue.messages
    {
      Reader(Text(), payloadRemaining, pendingRecvLen, dataResponseSeen, queue.Contents(), commands)
    }

    constructor ()
      ensures Valid() && View() == Reader("", 0, 0, false, [], []) && fresh(readBuffer) && fresh(queue)
      ensures fresh(queue.messages) && readBuffer.Length == 1024
    {
      readBuffer := new char[BUFFER_SIZE](_ => NUL);
      queue := new ResponseQueue();
      bufPos, payloadRemaining, pendingRecvLen, dataResponseSeen, commands := 0, 0, 0, false, [];
    }

    method AppendByte(ch: char)
      requires Valid()
      modifies this`bufPos, readBuffer
      ensures Valid() && Text() == Append(old(Text()), ch)
      ensures forall i | old(bufPos) + 2 <= i < BUFFER_SIZE :: readBuffer[i] == old(readBuffer[i])
    {
      if bufPos < BUFFER_SIZE - 1 {
        readBuffer[bufPos] := ch;
        bufPos := bufPos + 1;
        readBuffer[bufPos] := NUL;
      }
    }

    method Reset()
      requires Valid()
      modifies this`bufPos, readBuffer
      ensures Valid() && Text() == ""
    {
      bufPos := 0;
      readBuffer[0] := NUL;
    }

    /** Moves the text from `src` on to the front. */
    method MoveDown(src: nat)
      requires Valid() && src <= bufPos
      modifies this`bufPos, readBuffer
      ensures Valid() && Text() == old(Text())[src..]
    {
      ghost var was := Text();
      var dst, from := 0, src;
      while from < bufPos
        invariant src <= from <= bufPos == |was| && from == src + dst
        invariant forall i | 0 <= i < dst :: readBuffer[i] == was[src + i]
        invariant forall i | from <= i < bufPos :: readBuffer[i] == was[i]
        invariant readBuffer[bufPos] == NUL
      {
        readBuffer[dst] := readBuffer[from];
        dst, from := dst + 1, from + 1;
      }
      bufPos := dst;
      readBuffer[bufPos] := NUL;
    }

    /** The buffer as the search routines see it. */
    method Visible() returns (cs: string)
      requires Valid()
      ensures cs == CString(Text())
    {
      cs := CString(readBuffer[..]);
      CStringStops(Text(), readBuffer[bufPos + 1..]);
      assert readBuffer[..] == Text() + ([NUL] + readBuffer[bufPos + 1..]);
    }

    method DetectIpd() returns (n: int)
      requires Valid()
      ensures n == Ipd(Text())
    {
      hide Announced, Int16, Leading;
      if bufPos < 10 {
        return 0;
      }
      var cs := Visible();
      var k := MyStrstr(cs, IPD);
      ghost var complete := (r: string) => ':' in r;
      AnnouncedAt(Text(), IPD, complete);
      if k < 0 {
        return 0;
      }
      var colon := FindColon(cs, k + |IPD|);
      if colon < |cs| {
        n := ParseNumber(cs[k + |IPD|..]);
        if n > 0 {
          return n;
        }
      }
      return 0;
    }

    method DetectRecv() returns (n: int)
      requires Valid()
      ensures n == Recv(Text())
    {
      hide Announced, Int16, Leading;
      if bufPos < 10 {
        return 0;
      }
      var cs := Visible();
      var k := MyStrstr(cs, RECV);
      AnnouncedAt(Text(), RECV, HasLineEnd);
      if k < 0 {
        return 0;
      }
      var end := FindLineEnd(cs, k + |RECV|);
      if end < |cs| {
        n := ParseNumber(cs[k + |RECV|..]);
        if n > 0 {
          return n;
        }
      }
      return 0;
    }

    /** The backward search for an opening brace. */
    method FindOpeningBrace() returns (j: int)
      requires Valid()
      ensures j == LastBrace(Text())
    {
      j := bufPos - 1;
      while j >= 0
        invariant -1 <= j < bufPos && LastBrace(Text()) == LastBrace(Text()[..j + 1])
      {
        assert Text()[..j + 1][..j] == Text()[..j];
        if readBuffer[j] == '{' {
          return;
        }
        j := j - 1;
      }
    }

    /** The end of the loop body: complete objects, then the overflow guard. */
    method FinishByte(ch: char)
      requires Valid()
      modifies this, readBuffer, queue, queue.messages
      ensures Valid() && View() == Finish(old(View()), ch)
    {
      CompleteObject(ch);
      KeepLast();
    }

    method CompleteObject(ch: char)
      requires Valid()
      modifies this, readBuffer, queue, queue.messages
      ensures Valid() && View() == TakeObject(old(View()), ch)
    {
      hide Parsed, Enqueue, CString, LastBrace, ResponseQueue.Contents;
      if ch == '}' {
        var j := FindOpeningBrace();
        if j >= 0 {
          ghost var text := Text();
          var json := CString(readBuffer[j..]);
          CStringStops(text[j..], readBuffer[bufPos + 1..]);
          assert readBuffer[j..] == text[j..] + ([NUL] + readBuffer[bufPos + 1..]);
          var valid, msg := ParseJsonResponse(json);
          if valid {
            var ok := queue.QueuePut(msg);
            dataResponseSeen := false;
          }
          var jsonLen := bufPos - j;
          var remaining := bufPos - j - jsonLen;
          bufPos := remaining;
          readBuffer[bufPos] := NUL;
        }
      }
    }

    method KeepLast()
      requires Valid()
      modifies this`bufPos, readBuffer
      ensures Valid() && View() == Trim(old(View()))
    {
      if bufPos > KEEP_ABOVE {
        MoveDown(bufPos - KEEP);
      }
    }

    method FindData() returns (a: int)
      requires Valid()
      ensures a == DataAt(Text())
    {
      hide CString;
      if bufPos < 6 {
        return -1;
      }
      var cs := Visible();
      var k := MyStrstr(cs, DATA);
      a := if k < 0 then -1 else k + |DATA|;
    }

    /** The +DATA branches. */
    method DetectData(ch: char, ghost stale: char)
      requires Valid() && bufPos + 1 < BUFFER_SIZE && stale == readBuffer[bufPos + 1]
      modifies this, readBuffer, queue, queue.messages
      ensures Valid() && View() == StepData(old(View()), ch, stale)
    {
      StepDataCases(View(), ch, stale);
      hide CString, DataAt, Finish, Bare, Kept, StepData, TakesLengthed, TakesBare, ResponseQueue.Contents;
      var after := FindData();
      if after >= 0 {
        var taken := TakeData(after, stale);
        if taken {
          return;
        }
      }
      FinishByte(ch);
    }

    /** The two forms of the header; true when the byte has been dealt with. */
    method TakeData(after: nat, ghost stale: char) returns (taken: bool)
      requires Valid() && after == DataAt(Text())
      requires bufPos + 1 < BUFFER_SIZE && stale == readBuffer[bufPos + 1]
      modifies this, readBuffer
      ensures Valid() && taken == TakesLengthed(old(View()), after)
      ensures View() == if taken then Kept(old(View()), after, CString(old(View()).text)[after + 1..])
                        else if TakesBare(old(View()), after) then Bare(old(View()), after, stale)
                        else old(View())
    {
      hide NumberAt, CString, ColonAt, DataAt, Bare, ResponseQueue.Contents;
      var cs := Visible();
      taken := false;
      if after < |cs| && cs[after] == ',' {
        taken := TakeLengthed(cs, after);
      } else if after < |cs| && cs[after] == ':' && !dataResponseSeen {
        TakeBare(after, stale);
      }
    }

    /** "+DATA,<len>:" with a positive length: what follows the colon becomes the text. */
    method TakeLengthed(cs: string, after: nat) returns (taken: bool)
      requires Valid() && cs == CString(Text()) && |cs| <= |Text()| && after < |cs|
      modifies this`bufPos, this`payloadRemaining, readBuffer
      ensures var r := cs[after + 1..];
              taken <==> ':' in r && NumberAt(r) > 0
      ensures Valid() && View() == if taken then Kept(old(View()), after, cs[after + 1..]) else old(View())
    {
      hide Int16, Leading, CString, ColonAt;
      var colon := FindColon(cs, after + 1);
      if colon < |cs| {
        var len := ParseNumber(cs[after + 1..]);
        if len > 0 {
          MoveDown(colon + 1);
          payloadRemaining := len - bufPos;
          if payloadRemaining <= 0 {
            payloadRemaining := 0;
          }
          return true;
        }
      }
      return false;
    }

    method TakeBare(after: nat, ghost stale: char)
      requires Valid() && after < bufPos && bufPos + 1 < BUFFER_SIZE && stale == readBuffer[bufPos + 1]
      modifies this, readBuffer
      ensures Valid() && View() == Bare(old(View()), after, stale)
    {
      if pendingRecvLen > 0 {
        var src := after + 2;
        var dst := 0;
        pendingRecvLen := 0;
        dataResponseSeen := false;
        readBuffer[dst] := readBuffer[src];
        dst, src := dst + 1, src + 1;
        bufPos := dst;
        readBuffer[bufPos] := NUL;
        payloadRemaining := pendingRecvLen - bufPos;
        if payloadRemaining < 0 {
          payloadRemaining := 0;
        }
      }
      dataResponseSeen := true;
    }

    /** With no payload expected: the header searches, and what follows them. */
    method ScanHeaders(ch: char, ghost stale: char)
      requires Valid() && bufPos + 1 < BUFFER_SIZE && stale == readBuffer[bufPos + 1]
      modifies this, readBuffer, queue, queue.messages
      ensures Valid() && View() == Scan(old(View()), ch, stale)
    {
      hide Ipd, Recv, StepData, RecvCommand, ResponseQueue.Contents;
      var n := DetectIpd();
      if n > 0 {
        Reset();
        payloadRemaining := n;
        return;
      }
      n := DetectRecv();
      if n > 0 {
        pendingRecvLen := n;
        commands := commands + [RecvCommand(n)];
        Reset();
        return;
      }
      DetectData(ch, stale);
    }

    method CountPayload(ch: char)
      requires Valid() && payloadRemaining > 0
      modifies this, readBuffer, queue, queue.messages
      ensures Valid() && View() == Count(old(View()), ch)
    {
      hide Finish, ResponseQueue.Contents;
      payloadRemaining := payloadRemaining - 1;
      if payloadRemaining == 0 {
        pendingRecvLen := 0;
      }
      FinishByte(ch);
    }

    /** The loop body for one received byte. */
    method ReceiveByte(ch: char)
      requires Valid() && Bounded(View())
      modifies this, readBuffer, queue, queue.messages
      ensures Valid() && View() == Step(old(View()), ch, old(readBuffer[bufPos + 2])) && Bounded(View())
    {
      hide Scan, Count, ResponseQueue.Contents;
      ghost var s, stale := View(), readBuffer[bufPos + 2];
      StepBounds(s, ch, stale);
      AppendByte(ch);
      assert View() == s.(text := Append(s.text, ch));
      if payloadRemaining > 0 {
        CountPayload(ch);
      } else {
        ScanHeaders(ch, stale);
      }
    }
  }
}
