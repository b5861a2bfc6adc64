/** End to end: a message of build_test_msg, sent in a +IPD frame, through the reader. */
module UartMessages {
  import opened Decimal
  import opened Wrappers
  import opened Base64
  import opened Search
  import opened Message
  import opened MessageRoundTrip
  import opened MessageBuilder
  import opened UartState
  import opened UartRuns

  lemma {:induction false} FieldsAvoid(fields: seq<Field>, c: char)
    requires c != '"' && c != ':' && c != ','
    requires forall i | 0 <= i < |fields| :: c !in fields[i].key && c !in fields[i].value
    ensures c !in FieldsText(fields)
    decreases |fields|
  {
    if fields != [] {
      FieldsAvoid(fields[1..], c);
    }
  }

  lemma EncodingAvoids(bytes: seq<bv8>, c: char)
    requires !InAlphabet(c) && c != PAD
    ensures c !in Encode(bytes)
  {
    hide Encode, InAlphabet;
    EncodeShape(bytes);
    var s := Encode(bytes);
    forall i | 0 <= i < |s| ensures s[i] != c {
    }
  }

  lemma NotInAlphabet(c: char)
    requires c in {'{', '}', NUL}
    ensures !InAlphabet(c) && c != PAD
  {
  }

  lemma KeysAvoid(c: char)
    requires c in {'{', '}', NUL}
    ensures c !in "Category" && c !in "Test" && c !in "Base64Message" && c !in "Base64MessageHash"
  {
  }

  lemma OldFieldsAvoid(id: int, text: string, digest: Digest, max: int, c: char)
    requires CText(text) && c in {'{', '}', NUL}
    ensures c !in FieldsText(OldFields(id, Encode(Bytes(text)), Encode(digest), max))
  {
    hide Encode, FieldsText, InAlphabet, IdText;
    NotInAlphabet(c);
    EncodingAvoids(Bytes(text), c);
    EncodingAvoids(digest, c);
    KeysAvoid(c);
    FieldsAvoid(OldFields(id, Encode(Bytes(text)), Encode(digest), max), c);
  }

  lemma ShowsThreeDigits(n: nat)
    requires 100 <= n < 1000
    ensures |Show(n)| == 3
  {
    assert |Digits(n)| == |Digits(n / 10)| + 1 && |Digits(n / 10)| == |Digits(n / 10 / 10)| + 1;
    assert n / 10 / 10 > 0 && n / 10 / 10 / 10 == 0;
    assert |Digits(n / 10 / 10)| == |Digits(0)| + 1;
  }

  lemma InnerAvoids(id: int, f: string, c: char)
    requires c in {'{', '}', NUL} && c !in f
    ensures c !in "\"Id\":" + IdText(id) + "," + f + "\"RspReceivedOK\":false"
  {
    IdTextIsDigits(id);
    hide IdText;
    assert !IsDigit(c);
  }

  lemma WrappedIsObject(x: string)
    requires |x| + 2 <= KEEP_ABOVE && '{' !in x && '}' !in x && NUL !in x
    ensures var m := "{" + x + "}"; IsObject(m) && NUL !in m && m[..1] == "{"
  {
    var m := "{" + x + "}";
    assert m[1..] == x + "}" && m[..|m| - 1] == "{" + x;
  }

  lemma OldIsObject(id: int, text: string, digest: Digest)
    requires IsInt(id) && Encodable(text)
    ensures var m := OldMessage(id, text, digest, 1024);
            IsObject(m) && NUL !in m && 100 <= |m| < 700 && '+' !in m[..1]
  {
    hide FieldsText, Encode, IdText, IsObject, CText, OldFields, Guarded;
    var f := FieldsText(OldFields(id, Encode(Bytes(text)), Encode(digest), 1024));
    var x := "\"Id\":" + IdText(id) + "," + f + "\"RspReceivedOK\":false";
    OldSize(id, text, digest);
    OldFieldsAvoid(id, text, digest, 1024, '{');
    OldFieldsAvoid(id, text, digest, 1024, '}');
    OldFieldsAvoid(id, text, digest, 1024, NUL);
    InnerAvoids(id, f, '{');
    InnerAvoids(id, f, '}');
    InnerAvoids(id, f, NUL);
    assert OldMessage(id, text, digest, 1024) == "{" + x + "}";
    WrappedIsObject(x);
  }

  lemma OldSize(id: int, text: string, digest: Digest)
    requires IsInt(id) && Encodable(text)
    ensures 100 <= |OldMessage(id, text, digest, 1024)| < 700
  {
    hide OldMessage, Encode, IdText;
    OldLength(id, text, digest, 1024);
    IdTextLength(id);
    Base64IsPlain(Bytes(text));
  }

  /** A message sent in a frame is put into the queue, with its id, category, hash and text, unless
      the queue is full, exactly when something stands between the reader's last object and the
      header: a three-digit length makes the header nine bytes, and the reader looks for headers
      from the tenth on. */
  lemma MessageArrivesExactly(s: Reader, junk: string, id: int, text: string, digest: Digest, t: nat, mem: nat -> char)
    requires Bounded(s) && s.text == "" && s.remaining == 0
    requires Quiet(junk) && |junk| <= 700 && 0 <= id < 0x8000 && Encodable(text)
    ensures var m := OldMessage(id, text, digest, 1024);
            var u, r := Run(s, junk + Header(|m|) + m, t, mem), Parsed(m);
            && r.valid && r.id == id && r.category == "Test" && r.base64Hash == Encode(digest)
            && Decode(r.base64Message) == Some(Bytes(text))
            && if junk != "" then u.queue == Enqueue(s.queue, r) && u.text == "" && u.remaining == 0
               else u.queue == s.queue && u.remaining == 1
  {
    hide OldMessage, Parsed, Run, Encode, Decode, OldFits, Show;
    var m := OldMessage(id, text, digest, 1024);
    OldRoundTrip(id, text, digest, 1024);
    CallersBound(id, |text|);
    OldIsObject(id, text, digest);
    ShowsThreeDigits(|m|);
    if junk != "" {
      FrameArrives(s, junk, m, t, mem);
    } else {
      FrameLost(s, junk, m, t, mem);
    }
  }

  // ---- Message after message ----

  /** A message and the quiet bytes in front of its frame. */
  datatype Sent = Sent(junk: string, id: int, text: string, digest: Digest)

  predicate Sendable(x: Sent) {
    Quiet(x.junk) && 0 < |x.junk| <= 700 && 0 <= x.id < 0x8000 && Encodable(x.text)
  }

  function Framed(sent: seq<Sent>): (f: seq<Frame>)
    requires forall i | 0 <= i < |sent| :: Sendable(sent[i])
    ensures |f| == |sent|
  {
    if sent == [] then []
    else
      var x := sent[0];
      assert Sendable(x);
      [Frame(x.junk, OldMessage(x.id, x.text, x.digest, 1024))] + Framed(sent[1..])
  }

  /** The response tells the message: its id, category, hash and text. */
  predicate Tells(r: Response, x: Sent)
    requires Sendable(x)
  {
    && r.valid && r.id == x.id && r.category == "Test" && r.base64Hash == Encode(x.digest)
    && Decode(r.base64Message) == Some(Bytes(x.text))
  }

  lemma MessageIsReadable(x: Sent)
    requires Sendable(x)
    ensures var m := OldMessage(x.id, x.text, x.digest, 1024);
            Readable(Frame(x.junk, m)) && Tells(Parsed(m), x)
  {
    hide OldMessage, Parsed, Encode, Decode, OldFits, Show;
    var m := OldMessage(x.id, x.text, x.digest, 1024);
    OldRoundTrip(x.id, x.text, x.digest, 1024);
    CallersBound(x.id, |x.text|);
    OldIsObject(x.id, x.text, x.digest);
    ShowsThreeDigits(|m|);
  }

  lemma {:induction false} FramedAreReadable(sent: seq<Sent>)
    requires forall i | 0 <= i < |sent| :: Sendable(sent[i])
    ensures forall i | 0 <= i < |sent| :: Readable(Framed(sent)[i]) && Tells(Responses(Framed(sent))[i], sent[i])
  {
    hide OldMessage, Parsed, Readable, Tells, Sendable;
    if sent != [] {
      MessageIsReadable(sent[0]);
      FramedAreReadable(sent[1..]);
    }
  }

  /** Any number of messages, each behind at least one quiet byte: they come out in the order in
      which they were sent, each with its id, category, hash and text, as many as the queue has
      room for. */
  lemma MessagesArrive(s: Reader, sent: seq<Sent>, t: nat, mem: nat -> char)
    requires Bounded(s) && s.text == "" && s.remaining == 0
    requires forall i | 0 <= i < |sent| :: Sendable(sent[i])
    ensures var u, n := Run(s, Stream(Framed(sent)), t, mem), Room(s.queue, |sent|);
            && |u.queue| == |s.queue| + n && u.queue[..|s.queue|] == s.queue
            && (forall i | 0 <= i < n :: Tells(u.queue[|s.queue| + i], sent[i]))
            && u.text == "" && u.remaining == 0
  {
    hide Run, Tells, Readable, Sendable, Stream, Framed;
    FramedAreReadable(sent);
    FramesArrive(s, Framed(sent), t, mem);
  }
}
