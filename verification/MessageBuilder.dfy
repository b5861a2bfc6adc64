/** build_test_msg and build_test_msg_old (src/main.c): the printing loops, which write the JSON
    text into the caller's buffer. */
module MessageBuilder {
  import opened Words
  import opened Decimal
  import opened Base64
  import opened Search
  import opened Identifiers
  import opened Message
  import opened MessageRoundTrip

  // ---- Lengths ----

  lemma {:induction false} FieldsSnoc(fields: seq<Field>, f: Field)
    ensures FieldsText(fields + [f]) == FieldsText(fields) + (Quoted(f) + ",")
  {
    hide Quoted;
    if fields == [] {
      assert fields + [f] == [f] && [f][1..] == [];
      assert FieldsText([f]) == Quoted(f) + "," + "";
    } else {
      assert (fields + [f])[1..] == fields[1..] + [f];
      FieldsSnoc(fields[1..], f);
    }
  }

  lemma NewLength(id: int, g: Guid, text: string, digest: Digest, max: int)
    requires CText(text)
    ensures |NewMessage(id, g, text, digest, max)|
            == 164 + |IdText(id)| + |ShownText(id, text, max)| + |ShownBase64(id, text, Encode(Bytes(text)), max)|
  {
    hide Encode, IdText, ShownText, ShownBase64, Print;
    Base64IsPlain(digest);
    var f := NewFields(id, g, text, Encode(Bytes(text)), Encode(digest), max);
    FieldsSnoc([], f[0]);
    FieldsSnoc(f[..1], f[1]);
    FieldsSnoc(f[..2], f[2]);
    FieldsSnoc(f[..3], f[3]);
    FieldsSnoc(f[..4], f[4]);
    assert [] + [f[0]] == f[..1] && f[..1] + [f[1]] == f[..2] && f[..2] + [f[2]] == f[..3];
    assert f[..3] + [f[3]] == f[..4] && f[..4] + [f[4]] == f;
  }

  lemma OldLength(id: int, text: string, digest: Digest, max: int)
    requires CText(text)
    ensures |OldMessage(id, text, digest, max)|
            == 133 + |IdText(id)| + |OldShownBase64(id, Encode(Bytes(text)), max)|
  {
    hide Encode, IdText, OldShownBase64;
    Base64IsPlain(digest);
    var f := OldFields(id, Encode(Bytes(text)), Encode(digest), max);
    FieldsSnoc([], f[0]);
    FieldsSnoc(f[..1], f[1]);
    FieldsSnoc(f[..2], f[2]);
    assert [] + [f[0]] == f[..1] && f[..1] + [f[1]] == f[..2] && f[..2] + [f[2]] == f;
  }

  /** The guards keep the text and its NUL inside the caller's buffer, however long the text and
      its encoding are. */
  lemma GuardsFitBuffer(id: int, g: Guid, text: string, digest: Digest, max: int)
    requires IsInt(id) && CText(text) && max >= 278
    ensures |NewMessage(id, g, text, digest, max)| <= max - 109
  {
    NewLength(id, g, text, digest, max);
    IdTextLength(id);
  }

  // ---- Writing ----

  /** The buffer holds `text` in front of what it held before. */
  predicate Wrote(now: seq<char>, was: seq<char>, text: string) {
    |text| <= |was| && now == text + was[|text|..]
  }

  lemma WroteMore(now: seq<char>, was: seq<char>, text: string, c: char)
    requires Wrote(now, was, text) && |text| < |now|
    ensures Wrote(now[|text| := c], was, text + [c])
  {
  }

  /** A run of  *p++ = c;  for constant characters. */
  method Put(out: array<char>, p: nat, s: string, ghost was: seq<char>, ghost done: string) returns (q: nat)
    requires p == |done| && Wrote(out[..], was, done) && p + |s| <= out.Length
    modifies out
    ensures q == p + |s| && Wrote(out[..], was, done + s)
  {
    var i := 0;
    q := p;
    while i < |s|
      invariant 0 <= i <= |s| && q == p + i
      invariant Wrote(out[..], was, done + s[..i])
    {
      out[q] := s[i];
      assert s[..i + 1] == s[..i] + [s[i]];
      i, q := i + 1, q + 1;
    }
    assert s[..i] == s;
  }

  /** while (src[i]) *p++ = src[i++];  */
  method PutAll(out: array<char>, p: nat, src: seq<char>, ghost s: string, ghost was: seq<char>, ghost done: string)
    returns (q: nat)
    requires p == |done| && Wrote(out[..], was, done) && p + |s| <= out.Length
    requires s + [NUL] <= src && NUL !in s
    modifies out
    ensures q == p + |s| && Wrote(out[..], was, done + s)
  {
    var i := 0;
    q := p;
    assert forall j | 0 <= j < |s| :: src[j] == s[j];
    assert src[|s|] == NUL;
    while src[i] != NUL
      invariant 0 <= i <= |s| && q == p + i
      invariant Wrote(out[..], was, done + s[..i])
      decreases |s| - i
    {
      out[q] := src[i];
      assert s[..i + 1] == s[..i] + [s[i]];
      i, q := i + 1, q + 1;
    }
    assert s[..i] == s;
  }

  /** while (src[i] && (p - json_output) < limit) *p++ = src[i++];  */
  method PutGuarded(out: array<char>, p: nat, src: seq<char>, limit: int, ghost s: string, ghost was: seq<char>,
                    ghost done: string)
    returns (q: nat)
    requires p == |done| && Wrote(out[..], was, done) && p + |Guarded(s, p, limit)| <= out.Length
    requires s + [NUL] <= src && NUL !in s
    modifies out
    ensures q == p + |Guarded(s, p, limit)| && Wrote(out[..], was, done + Guarded(s, p, limit))
  {
    var i := 0;
    q := p;
    assert forall j | 0 <= j < |s| :: src[j] == s[j];
    assert src[|s|] == NUL;
    while src[i] != NUL && q < limit
      invariant 0 <= i <= |Guarded(s, p, limit)| && q == p + i
      invariant Wrote(out[..], was, done + s[..i])
      decreases |s| - i
    {
      out[q] := src[i];
      assert s[..i + 1] == s[..i] + [s[i]];
      i, q := i + 1, q + 1;
    }
    assert s[..i] == Guarded(s, p, limit);
  }

  /** "key":"  in front of a value. */
  method PutKey(out: array<char>, p: nat, key: string, ghost was: seq<char>, ghost done: string) returns (q: nat)
    requires p == |done| && Wrote(out[..], was, done) && p + |key| + 4 <= out.Length
    modifies out
    ensures q == p + |key| + 4 && Wrote(out[..], was, done + KeyNeedle(key))
  {
    q := Put(out, p, "\"", was, done);
    q := Put(out, q, key, was, done + "\"");
    q := Put(out, q, "\":\"", was, done + "\"" + key);
    assert done + "\"" + key + "\":\"" == done + KeyNeedle(key);
  }

  /** The quote and comma behind a value; then one more field is complete. */
  method PutEnd(out: array<char>, p: nat, ghost was: seq<char>, ghost head: string, ghost fields: seq<Field>,
                ghost f: Field)
    returns (q: nat)
    requires p == |head + FieldsText(fields) + KeyNeedle(f.key) + f.value| && p + 2 <= out.Length
    requires Wrote(out[..], was, head + FieldsText(fields) + KeyNeedle(f.key) + f.value)
    modifies out
    ensures q == p + 2 == |head + FieldsText(fields + [f])| && Wrote(out[..], was, head + FieldsText(fields + [f]))
  {
    q := Put(out, p, "\",", was, head + FieldsText(fields) + KeyNeedle(f.key) + f.value);
    FieldsSnoc(fields, f);
    assert head + FieldsText(fields) + KeyNeedle(f.key) + f.value + "\"," == head + FieldsText(fields + [f]);
  }

  /** The four nibbles of a word, from the top one down. */
  method PutHex(out: array<char>, p: nat, w: U16, ghost was: seq<char>, ghost done: string) returns (q: nat)
    requires p == |done| && Wrote(out[..], was, done) && p + 4 <= out.Length
    modifies out
    ensures q == p + 4 && Wrote(out[..], was, done + Hex(w, 4))
  {
    FourNibbles(w);
    hide Hex, Wrote;
    ghost var h := Hex(w, 4);
    assert done + h[..0] == done;
    var i := 3;
    q := p;
    while i >= 0
      invariant -1 <= i <= 3 && q == p + 3 - i
      invariant Wrote(out[..], was, done + h[..3 - i])
    {
      var shifted := if i == 3 then w / 4096 else if i == 2 then w / 256 else if i == 1 then w / 16 else w;
      ghost var now := out[..];
      out[q] := HexChar(shifted % 16);
      assert out[..] == now[q := h[3 - i]];
      WroteMore(now, was, done + h[..3 - i], h[3 - i]);
      assert done + h[..4 - i] == done + h[..3 - i] + [h[3 - i]];
      i, q := i - 1, q + 1;
    }
    assert h[..4] == h;
  }

  // ---- The message id ----

  function Reversed(s: string): string {
    if s == "" then "" else [s[|s| - 1]] + Reversed(s[..|s| - 1])
  }

  lemma ReversedSnoc(s: string, c: char)
    ensures Reversed(s + [c]) == [c] + Reversed(s)
  {
    assert (s + [c])[..|s|] == s;
  }

  method IdString(msgId: int) returns (s: string)
    requires IsInt(msgId)
    ensures s == IdText(msgId)
  {
    s := "";
    if msgId == 0 {
      s := "0";
    } else {
      var digits := "";
      var temp := msgId;
      while temp > 0
        invariant temp <= 0 || msgId > 0
        invariant msgId < 0 ==> digits == "" && temp == msgId
        invariant msgId > 0 ==> temp >= 0 && Digits(msgId) == Digits(temp) + Reversed(digits)
      {
        ReversedSnoc(digits, DigitChar(temp % 10));
        digits := digits + [DigitChar(temp % 10)];
        temp := temp / 10;
      }
      assert IdText(msgId) == "" + Reversed(digits);
      while |digits| > 0
        invariant s + Reversed(digits) == IdText(msgId)
      {
        s := s + [digits[|digits| - 1]];
        digits := digits[..|digits| - 1];
      }
    }
  }

  // ---- Whole fields ----

  method PutField(out: array<char>, p: nat, f: Field, ghost was: seq<char>, ghost head: string,
                  ghost fields: seq<Field>)
    returns (q: nat)
    requires p == |head + FieldsText(fields)| && Wrote(out[..], was, head + FieldsText(fields))
    requires p + |f.key| + |f.value| + 6 <= out.Length
    modifies out
    ensures q == p + |f.key| + |f.value| + 6 == |head + FieldsText(fields + [f])|
    ensures Wrote(out[..], was, head + FieldsText(fields + [f]))
  {
    hide FieldsText, Wrote;
    ghost var done := head + FieldsText(fields);
    q := PutKey(out, p, f.key, was, done);
    q := Put(out, q, f.value, was, done + KeyNeedle(f.key));
    q := PutEnd(out, q, was, head, fields, f);
  }

  method PutGuidField(out: array<char>, p: nat, g: Guid, ghost was: seq<char>, ghost head: string,
                      ghost fields: seq<Field>)
    returns (q: nat)
    requires p == |head + FieldsText(fields)| && Wrote(out[..], was, head + FieldsText(fields))
    requires p + 18 <= out.Length
    modifies out
    ensures q == p + 18 == |head + FieldsText(fields + [Field("Guid", Print(g))])|
    ensures Wrote(out[..], was, head + FieldsText(fields + [Field("Guid", Print(g))]))
  {
    hide FieldsText, Wrote, Hex;
    ghost var done := head + FieldsText(fields);
    q := PutKey(out, p, "Guid", was, done);
    q := PutHex(out, q, g.high, was, done + KeyNeedle("Guid"));
    q := PutHex(out, q, g.low, was, done + KeyNeedle("Guid") + Hex(g.high, 4));
    assert done + KeyNeedle("Guid") + Hex(g.high, 4) + Hex(g.low, 4) == done + KeyNeedle("Guid") + Print(g);
    q := PutEnd(out, q, was, head, fields, Field("Guid", Print(g)));
  }

  /** A field whose value is a C string, copied up to its NUL. */
  method PutStringField(out: array<char>, p: nat, src: seq<char>, ghost was: seq<char>, key: string, ghost s: string,
                        ghost head: string, ghost fields: seq<Field>)
    returns (q: nat)
    requires p == |head + FieldsText(fields)| && Wrote(out[..], was, head + FieldsText(fields))
    requires s + [NUL] <= src && NUL !in s && p + |key| + |s| + 6 <= out.Length
    modifies out
    ensures q == p + |key| + |s| + 6 == |head + FieldsText(fields + [Field(key, s)])|
    ensures Wrote(out[..], was, head + FieldsText(fields + [Field(key, s)]))
  {
    hide FieldsText, Wrote;
    ghost var done := head + FieldsText(fields);
    q := PutKey(out, p, key, was, done);
    q := PutAll(out, q, src, s, was, done + KeyNeedle(key));
    q := PutEnd(out, q, was, head, fields, Field(key, s));
  }

  /** A field whose value is a C string, copied while the position is below `limit`. */
  method PutGuardedField(out: array<char>, p: nat, src: seq<char>, limit: int, ghost was: seq<char>, key: string,
                         ghost s: string, ghost head: string, ghost fields: seq<Field>)
    returns (q: nat)
    requires p == |head + FieldsText(fields)| && Wrote(out[..], was, head + FieldsText(fields))
    requires s + [NUL] <= src && NUL !in s
    requires p + |key| + |Guarded(s, p + |key| + 4, limit)| + 6 <= out.Length
    modifies out
    ensures var f := Field(key, Guarded(s, p + |key| + 4, limit));
            && q == p + |key| + |f.value| + 6 == |head + FieldsText(fields + [f])|
            && Wrote(out[..], was, head + FieldsText(fields + [f]))
  {
    hide FieldsText, Wrote, Guarded;
    ghost var done := head + FieldsText(fields);
    q := PutKey(out, p, key, was, done);
    q := PutGuarded(out, q, src, limit, s, was, done + KeyNeedle(key));
    q := PutEnd(out, q, was, head, fields, Field(key, Guarded(s, p + |key| + 4, limit)));
  }

  /** {"Id":<id>, */
  method PutHead(out: array<char>, id: int, ghost was: seq<char>) returns (q: nat)
    requires IsInt(id) && |Head(id)| <= out.Length && out[..] == was
    modifies out
    ensures q == |Head(id) + FieldsText([])| == 7 + |IdText(id)| && Wrote(out[..], was, Head(id) + FieldsText([]))
  {
    hide IdText;
    var idStr := IdString(id);
    assert Wrote(out[..], was, "");
    q := Put(out, 0, "{\"Id\":", was, "");
    assert "" + "{\"Id\":" == "{\"Id\":";
    q := Put(out, q, idStr, was, "{\"Id\":");
    q := Put(out, q, ",", was, "{\"Id\":" + idStr);
    assert Head(id) + FieldsText([]) == "{\"Id\":" + idStr + ",";
  }

  /** The text of build_test_msg. */
  method PutNewMessage(out: array<char>, id: int, g: Guid, text: string, message: seq<char>, hash: seq<char>, max: int,
                       ghost digest: Digest)
    returns (q: nat)
    requires IsInt(id) && CText(text) && |NewMessage(id, g, text, digest, max)| <= out.Length
    requires Encode(Bytes(text)) + [NUL] <= message && NUL !in Encode(Bytes(text))
    requires Encode(digest) + [NUL] <= hash && NUL !in Encode(digest) && |Encode(digest)| == 44
    modifies out
    ensures q == |NewMessage(id, g, text, digest, max)|
    ensures Wrote(out[..], old(out[..]), NewMessage(id, g, text, digest, max))
  {
    hide FieldsText, Wrote, Encode, Guarded, Print, IdText;
    ghost var was, head, b64 := out[..], Head(id), Encode(Bytes(text));
    ghost var f := NewFields(id, g, text, b64, Encode(digest), max);
    NewLength(id, g, text, digest, max);
    q := PutHead(out, id, was);
    q := PutGuidField(out, q, g, was, head, []);
    assert [] + [f[0]] == f[..1];
    q := PutField(out, q, Field("Category", "Test"), was, head, f[..1]);
    assert f[..1] + [f[1]] == f[..2];
    q := PutGuardedField(out, q, text + [NUL], max - 300, was, "Message", text, head, f[..2]);
    assert f[..2] + [f[2]] == f[..3];
    q := PutGuardedField(out, q, message, max - 200, was, "Base64Message", b64, head, f[..3]);
    assert f[..3] + [f[3]] == f[..4];
    q := PutStringField(out, q, hash, was, "Base64MessageHash", Encode(digest), head, f[..4]);
    assert f[..4] + [f[4]] == f;
    q := Put(out, q, TAIL, was, head + FieldsText(f));
  }

  /** The text of build_test_msg_old. */
  method PutOldMessage(out: array<char>, id: int, text: string, message: seq<char>, hash: seq<char>, max: int,
                       ghost digest: Digest)
    returns (q: nat)
    requires IsInt(id) && CText(text) && |OldMessage(id, text, digest, max)| <= out.Length
    requires Encode(Bytes(text)) + [NUL] <= message && NUL !in Encode(Bytes(text))
    requires Encode(digest) + [NUL] <= hash && NUL !in Encode(digest) && |Encode(digest)| == 44
    modifies out
    ensures q == |OldMessage(id, text, digest, max)|
    ensures Wrote(out[..], old(out[..]), OldMessage(id, text, digest, max))
  {
    hide FieldsText, Wrote, Encode, Guarded, IdText;
    ghost var was, head, b64 := out[..], Head(id), Encode(Bytes(text));
    ghost var f := OldFields(id, b64, Encode(digest), max);
    OldLength(id, text, digest, max);
    q := PutHead(out, id, was);
    q := PutField(out, q, Field("Category", "Test"), was, head, []);
    assert [] + [f[0]] == f[..1];
    q := PutGuardedField(out, q, message, max - 200, was, "Base64Message", b64, head, f[..1]);
    assert f[..1] + [f[1]] == f[..2];
    q := PutStringField(out, q, hash, was, "Base64MessageHash", Encode(digest), head, f[..2]);
    assert f[..2] + [f[2]] == f;
    q := Put(out, q, TAIL, was, head + FieldsText(f));
  }

  /** if (out) { for (i = 0; i < limit && src[i]; i++) out[i] = src[i]; out[i] = 0; }  */
  method CopyOut(src: seq<char>, limit: nat, out: array?<char>, ghost s: string)
    requires s + [NUL] <= src && NUL !in s && |s| <= limit && (out != null ==> |s| < out.Length)
    modifies out
    ensures out != null ==> Wrote(out[..], old(out[..]), s + [NUL])
  {
    if out != null {
      ghost var was := out[..];
      var q := PutGuarded(out, 0, src, limit, s, was, "");
      assert "" + s == s;
      out[q] := NUL;
    }
  }

  // ---- The builders ----

  class Builder {
    var msgId: int
    var tcpMsgId: int
    var guidCounter: U32

    constructor ()
      ensures msgId == 1 && tcpMsgId == 1 && guidCounter == 0
    {
      msgId, tcpMsgId, guidCounter := 1, 1, 0;
    }

    predicate Valid()
      reads this
    {
      IsInt(msgId) && IsInt(tcpMsgId)
    }

    method GenerateGuid() returns (g: Guid)
      modifies this`guidCounter
      ensures guidCounter == Wrap32(old(guidCounter) + 1) && g == Generated(old(guidCounter), 1)
    {
      guidCounter := Wrap32(guidCounter + 1);
      g := Guid(guidCounter / 0x1_0000 % 0x1_0000, guidCounter % 0x1_0000);
    }

    /** Encodings into the 512-byte and 64-byte buffers. */
    method EncodeBoth(text: string, digest: Digest) returns (message: array<char>, hash: array<char>)
      requires Encodable(text)
      ensures Encode(Bytes(text)) + [NUL] <= message[..] && NUL !in Encode(Bytes(text))
      ensures Encode(digest) + [NUL] <= hash[..] && NUL !in Encode(digest)
      ensures fresh(message) && fresh(hash) && |Encode(digest)| == 44
    {
      hide Encode;
      Base64IsPlain(Bytes(text));
      Base64IsPlain(digest);
      message := new char[512];
      hash := new char[64];
      Base64Encode(Bytes(text), message);
      Base64Encode(digest, hash);
    }

    /** The two encodings go to the caller too, where it has given buffers for them. */
    method BuildTestMsg(text: string, json: array<char>, max: int, outMessage: array?<char>, outHash: array?<char>,
                        digest: Digest)
      returns (id: int, g: Guid)
      requires Valid() && Encodable(text)
      requires |NewMessage(msgId, Generated(guidCounter, 1), text, digest, max)| < json.Length
      requires outMessage != null ==> outMessage != json && |Encode(Bytes(text))| < outMessage.Length
      requires outHash != null ==> outHash != json && outHash != outMessage && |Encode(digest)| < outHash.Length
      modifies this, json, outMessage, outHash
      ensures Valid() && tcpMsgId == old(tcpMsgId)
      ensures id == old(msgId) && msgId == Int16(id + 1)
      ensures g == Generated(old(guidCounter), 1) && guidCounter == Wrap32(old(guidCounter) + 1)
      ensures Wrote(json[..], old(json[..]), NewMessage(id, g, text, digest, max) + [NUL])
      ensures outMessage != null ==> Wrote(outMessage[..], old(outMessage[..]), Encode(Bytes(text)) + [NUL])
      ensures outHash != null ==> Wrote(outHash[..], old(outHash[..]), Encode(digest) + [NUL])
    {
      hide NewMessage, Encode, Generated, Int16, CText;
      ghost var was := json[..];
      var message, hash := EncodeBoth(text, digest);
      id := msgId;
      msgId := Int16(msgId + 1);
      g := GenerateGuid();
      var q := PutNewMessage(json, id, g, text, message[..], hash[..], max, digest);
      json[q] := NUL;
      Base64IsPlain(Bytes(text));
      CopyOut(message[..], 511, outMessage, Encode(Bytes(text)));
      CopyOut(hash[..], 63, outHash, Encode(digest));
    }

    method BuildTestMsgOld(text: string, json: array<char>, max: int, digest: Digest) returns (id: int)
      requires Valid() && Encodable(text)
      requires |OldMessage(tcpMsgId, text, digest, max)| < json.Length
      modifies this, json
      ensures Valid() && msgId == old(msgId) && guidCounter == old(guidCounter)
      ensures id == old(tcpMsgId) && tcpMsgId == Int16(id + 1)
      ensures Wrote(json[..], old(json[..]), OldMessage(id, text, digest, max) + [NUL])
    {
      hide OldMessage, Encode, Int16, CText;
      ghost var was := json[..];
      var message, hash := EncodeBoth(text, digest);
      id := tcpMsgId;
      tcpMsgId := Int16(tcpMsgId + 1);
      var q := PutOldMessage(json, id, text, message[..], hash[..], max, digest);
      json[q] := NUL;
    }
  }
}
