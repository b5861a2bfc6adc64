/** The reader of the modem's byte stream (src/tcp_uart.c, uart_reader_loop) as a step on one
    received byte. */
module UartState {
  import opened Decimal
  import opened Search
  import opened Identifiers
  import opened Message

  const BUFFER_SIZE := 1024
  const KEEP_ABOVE := 800
  const KEEP := 512
  const RESPONSE_QUEUE_SIZE := 10

  /** `text` is what the buffer holds before its NUL; `remaining` counts payload bytes still to
      come; `pending` is the length a +RECV line announced; `commands` are those sent back. */
  datatype Reader = Reader(text: string, remaining: int, pending: int, seen: bool, queue: seq<Response>,
                           commands: seq<string>)

  // ---- Headers ----

  const IPD := "+IPD,"
  const RECV := "+RECV:"
  const DATA := "+DATA"

  /** parse_number on the characters from here on. */
  function NumberAt(s: string): int {
    Int16(Decimal.Value(Leading(s)))
  }

  predicate HasLineEnd(s: string) {
    '\r' in s || '\n' in s
  }

  /** A length that the announced text starts with, once its terminator has arrived. */
  function Announced(text: string, header: string, complete: string -> bool): (n: int)
    ensures 0 <= n < 0x8000
  {
    match After(CString(text), header)
    case None => 0
    case Some(r) => if complete(r) && NumberAt(r) > 0 then NumberAt(r) else 0
  }

  /** The length of a complete +IPD header in the buffer, or 0. */
  function Ipd(text: string): (n: int)
    ensures 0 <= n < 0x8000
  {
    if |text| >= 10 then Announced(text, IPD, r => ':' in r) else 0
  }

  function Recv(text: string): (n: int)
    ensures 0 <= n < 0x8000
  {
    if |text| >= 10 then Announced(text, RECV, HasLineEnd) else 0
  }

  lemma {:induction false} CStringIsPrefix(s: string)
    ensures CString(s) <= s && NUL !in CString(s)
  {
    if s != "" && s[0] != NUL {
      CStringIsPrefix(s[1..]);
      assert s == [s[0]] + s[1..];
    }
  }

  /** Where "+DATA" ends in the buffer, or -1. */
  function DataAt(text: string): (a: int)
    ensures a == -1 || |DATA| <= a <= |CString(text)| <= |text|
  {
    CStringIsPrefix(text);
    var k := Find(CString(text), DATA);
    if |text| < 6 || k < 0 then -1 else k + |DATA|
  }

  /** Index of the first colon, or the length. */
  function ColonAt(s: string): (k: nat)
    ensures k <= |s| && (k < |s| <==> ':' in s)
    ensures (k < |s| ==> s[k] == ':') && forall i | 0 <= i < k :: s[i] != ':'
  {
    if s == "" || s[0] == ':' then 0 else 1 + ColonAt(s[1..])
  }

  // ---- One byte ----

  function Append(text: string, ch: char): string {
    if |text| < BUFFER_SIZE - 1 then text + [ch] else text
  }

  /** Index of the last opening brace, or -1. */
  function LastBrace(s: string): (j: int)
    ensures -1 <= j < |s| && (j >= 0 ==> s[j] == '{') && forall i | j < i < |s| :: s[i] != '{'
  {
    if s == "" then -1 else if s[|s| - 1] == '{' then |s| - 1 else LastBrace(s[..|s| - 1])
  }

  function Enqueue(queue: seq<Response>, m: Response): seq<Response> {
    if |queue| >= RESPONSE_QUEUE_SIZE then queue else queue + [m]
  }

  /** A closing brace completes an object: it is parsed, queued if it has an id, and removed. */
  function TakeObject(s: Reader, ch: char): Reader {
    var j := LastBrace(s.text);
    if ch != '}' || j < 0 then s
    else
      var m := Parsed(CString(s.text[j..]));
      if m.valid then s.(text := "", queue := Enqueue(s.queue, m), seen := false) else s.(text := "")
  }

  function Trim(s: Reader): Reader {
    if |s.text| > KEEP_ABOVE then s.(text := s.text[|s.text| - KEEP..]) else s
  }

  function Finish(s: Reader, ch: char): Reader {
    Trim(TakeObject(s, ch))
  }

  function RecvCommand(n: nat): string {
    "AT+CIPRECVDATA=" + Show(n)
  }

  /** The branch for "+DATA:" without a length: with a pending length it keeps one character, two
      places after the colon, and forgets the length; `stale` is the byte behind the NUL. */
  function Bare(s: Reader, at: nat, stale: char): Reader {
    if s.pending > 0 then
      var kept := if at + 2 < |s.text| then s.text[at + 2] else if at + 2 == |s.text| then NUL else stale;
      s.(text := [kept], remaining := 0, pending := 0, seen := true)
    else s.(seen := true)
  }

  /** Header detection failed for +IPD and +RECV; what is left is +DATA. */
  function StepData(s: Reader, ch: char, stale: char): Reader {
    var a := DataAt(s.text);
    if a < 0 then Finish(s, ch)
    else
      var r := CString(s.text)[a..];
      if r != "" && r[0] == ',' && ':' in r[1..] && NumberAt(r[1..]) > 0 then
        var n, kept := NumberAt(r[1..]), s.text[a + 1 + ColonAt(r[1..]) + 1..];
        s.(text := kept, remaining := if n > |kept| then n - |kept| else 0)
      else if r != "" && r[0] == ':' && !s.seen then Finish(Bare(s, a, stale), ch)
      else Finish(s, ch)
  }

  /** With no payload expected, the buffer is searched for a header after every byte. */
  function Scan(s: Reader, ch: char, stale: char): Reader {
    if Ipd(s.text) > 0 then s.(text := "", remaining := Ipd(s.text))
    else if Recv(s.text) > 0 then
      s.(text := "", pending := Recv(s.text), commands := s.commands + [RecvCommand(Recv(s.text))])
    else StepData(s, ch, stale)
  }

  /** A payload byte is only counted, whatever it is. */
  function Count(s: Reader, ch: char): Reader {
    Finish(s.(remaining := s.remaining - 1, pending := if s.remaining == 1 then 0 else s.pending), ch)
  }

  /** One received byte. */
  function Step(s: Reader, ch: char, stale: char): Reader {
    var t := s.(text := Append(s.text, ch));
    if s.remaining > 0 then Count(t, ch) else Scan(t, ch, stale)
  }

  // ---- What every step keeps ----

  /** The bounds between steps. */
  predicate Bounded(s: Reader) {
    && |s.text| <= KEEP_ABOVE && 0 <= s.remaining < 0x8000 && 0 <= s.pending < 0x8000
    && |s.queue| <= RESPONSE_QUEUE_SIZE
  }

  lemma FinishBounds(s: Reader, ch: char)
    requires |s.text| <= KEEP_ABOVE + 1 && 0 <= s.remaining < 0x8000 && 0 <= s.pending < 0x8000
    requires |s.queue| <= RESPONSE_QUEUE_SIZE
    ensures Bounded(Finish(s, ch)) && Finish(s, ch).remaining == s.remaining
  {
    hide Parsed;
  }

  /** From any state within the bounds, any byte leads to one within them, and the buffer's 1023
      guard does not bite on the way. */
  lemma StepBounds(s: Reader, ch: char, stale: char)
    requires Bounded(s)
    ensures Bounded(Step(s, ch, stale)) && Append(s.text, ch) == s.text + [ch]
  {
    hide Finish, Ipd, Recv, Int16, Leading;
    var t := s.(text := Append(s.text, ch));
    if s.remaining > 0 {
      FinishBounds(t.(remaining := s.remaining - 1, pending := if s.remaining == 1 then 0 else s.pending), ch);
    } else if Ipd(t.text) == 0 && Recv(t.text) == 0 {
      StepDataBounds(t, ch, stale);
    }
  }

  lemma StepDataBounds(s: Reader, ch: char, stale: char)
    requires |s.text| <= KEEP_ABOVE + 1 && 0 <= s.remaining < 0x8000 && 0 <= s.pending < 0x8000
    requires |s.queue| <= RESPONSE_QUEUE_SIZE
    ensures Bounded(StepData(s, ch, stale))
  {
    hide Finish, Int16, Leading, DataAt;
    FinishBounds(s, ch);
    if DataAt(s.text) >= 0 {
      FinishBounds(Bare(s, DataAt(s.text), stale), ch);
    }
  }
}
