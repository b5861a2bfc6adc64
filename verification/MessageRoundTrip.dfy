/** What survives building and parsing a message, exactly. */
module MessageRoundTrip {
  import opened Decimal
  import opened Wrappers
  import opened Base64
  import opened Search
  import opened Identifiers
  import opened Message

  const MAX_ENCODED := 512

  /** The texts the builder can encode: C strings whose encoding fits its 512-byte buffer; the
      hash routine divides by the length, so they are not empty. */
  predicate Encodable(text: string) {
    text != "" && CText(text) && EncodedLength(|text|) < MAX_ENCODED
  }

  /** A digest of 32 bytes, as sha256_simple computes it. */
  type Digest = d: seq<bv8> | |d| == 32 witness seq(32, i => 0)

  function NewMessage(id: int, g: Guid, text: string, digest: Digest, max: int): string
    requires CText(text)
  {
    Json(id, NewFields(id, g, text, Encode(Bytes(text)), Encode(digest), max))
  }

  function OldMessage(id: int, text: string, digest: Digest, max: int): string
    requires CText(text)
  {
    Json(id, OldFields(id, Encode(Bytes(text)), Encode(digest), max))
  }

  /** The guards let the whole encoding of n bytes through. */
  predicate NewFits(id: int, n: nat, max: int) {
    var at := 54 + |IdText(id)|;
    var shown := if at + n <= max - 300 then n else if at < max - 300 then max - 300 - at else 0;
    at + shown + 19 + EncodedLength(n) <= max - 200
  }

  predicate OldFits(id: int, n: nat, max: int) {
    42 + |IdText(id)| + EncodedLength(n) <= max - 200
  }

  // ---- Encodings are plain, and their length determines how much they decode to ----

  lemma Base64IsPlain(bytes: seq<bv8>)
    ensures QuoteFree(Encode(bytes)) && NUL !in Encode(bytes) && |Encode(bytes)| == EncodedLength(|bytes|)
  {
    hide Encode;
    EncodeShape(bytes);
    assert !InAlphabet('"') && !InAlphabet(NUL);
    var s := Encode(bytes);
    forall i | 0 <= i < |s| ensures s[i] != '"' && s[i] != NUL {
    }
  }

  lemma {:induction false} DecodedLength(s: string)
    ensures Decode(s).Some? ==> |s| == EncodedLength(|Decode(s).value|)
  {
    hide LetterValue, Group, ByteOf;
    if |s| >= 4 {
      DecodedLength(s[4..]);
    }
  }

  lemma GuardedShape(s: string, at: nat, limit: int)
    requires QuoteFree(s)
    ensures QuoteFree(Guarded(s, at, limit)) && |Guarded(s, at, limit)| <= |s|
    ensures s != "" ==> (Guarded(s, at, limit) == s <==> at + |s| <= limit)
    ensures s != "" ==> (|Guarded(s, at, limit)| == |s| <==> at + |s| <= limit)
  {
  }

  lemma PlainPassed(f: Field, key: string)
    requires QuoteFree(f.value) && QuoteFree(key) && f.key != key
    ensures Passed(f, key)
  {
    SpellsPair(f.value, key);
    SplitOfQuoteFree(f.value);
  }

  /** A received encoding gives the text back exactly when it is the whole encoding. */
  lemma WholeEncoding(text: string, received: string)
    requires Encodable(text)
    requires |received| == EncodedLength(|text|) ==> received == Encode(Bytes(text))
    ensures Decode(received) == Some(Bytes(text)) <==> |received| == EncodedLength(|text|)
  {
    hide Encode, Decode;
    DecodeInvertsEncode(Bytes(text));
    DecodedLength(received);
  }

  // ---- build_test_msg ----

  lemma KeysAreKeys()
    ensures IsKey("Guid") && IsKey("Category") && IsKey("Message")
    ensures IsKey("Base64Message") && IsKey("Base64MessageHash")
  {
  }

  lemma NewFieldsArePlain(id: int, g: Guid, text: string, digest: Digest, max: int)
    requires CText(text)
    ensures var f := NewFields(id, g, text, Encode(Bytes(text)), Encode(digest), max);
            && PlainKeys(f)
            && (forall i | i in {0, 1, 3, 4} :: QuoteFree(f[i].value))
            && |f[3].value| <= EncodedLength(|text|) && |f[4].value| == 44
            && (f[3].value == Encode(Bytes(text)) <==> |f[3].value| == EncodedLength(|text|))
  {
    hide Encode, Hex, IdText, ShownText, IsKey;
    KeysAreKeys();
    HexIsPlain(g.high, 4);
    HexIsPlain(g.low, 4);
    Base64IsPlain(Bytes(text));
    Base64IsPlain(digest);
    GuardedShape(Encode(Bytes(text)), 73 + |IdText(id)| + |ShownText(id, text, max)|, max - 200);
  }

  lemma NewFitsIsWhole(id: int, text: string, max: int)
    requires CText(text) && text != ""
    ensures |ShownBase64(id, text, Encode(Bytes(text)), max)| == EncodedLength(|text|) <==> NewFits(id, |text|, max)
  {
    hide Encode, IdText;
    Base64IsPlain(Bytes(text));
    GuardedShape(Encode(Bytes(text)), 73 + |IdText(id)| + |ShownText(id, text, max)|, max - 200);
  }

  /** The id and the category survive.  So does the hash unless the text spells its key between
      quotes; then the hash is read out of the text, as if there were nothing else.  The text itself
      can be decoded from what was read exactly when the guards let its whole encoding through and
      the text does not spell the key of the encoding. */
  lemma NewRoundTrip(id: int, g: Guid, text: string, digest: Digest, max: int)
    requires IsInt(id) && Encodable(text)
    ensures var r := Parsed(NewMessage(id, g, text, digest, max));
            && r.valid && r.category == "Test" && r.id == (if id >= 0 then id else 0)
            && r.base64Hash == (if Spells(ShownText(id, text, max), "Base64MessageHash")
                                then StringOf(Alone(ShownText(id, text, max)), "Base64MessageHash", 63)
                                else Encode(digest))
            && (Decode(r.base64Message) == Some(Bytes(text))
                <==> NewFits(id, |text|, max) && !Spells(ShownText(id, text, max), "Base64Message"))
  {
    hide Json, StringOf, IdOf, Encode, Decode, Spells, ShownText, NewFits, Print, Alone;
    var f := NewFields(id, g, text, Encode(Bytes(text)), Encode(digest), max);
    NewFieldsArePlain(id, g, text, digest, max);
    NewFitsIsWhole(id, text, max);
    ShownIsShort(id, text, max);
    IdReads(id, f);
    NewCategory(id, f);
    NewHash(id, f);
    NewBase64(id, f, text);
    var r := StringOf(Json(id, f), "Base64Message", 511);
    WholeEncoding(text, r);
  }

  lemma ShownIsShort(id: int, text: string, max: int)
    ensures |ShownText(id, text, max)| <= |text|
  {
  }

  predicate NewShape(f: seq<Field>) {
    && |f| == 5 && PlainKeys(f)
    && f[0].key == "Guid" && f[1] == Field("Category", "Test") && f[2].key == "Message"
    && f[3].key == "Base64Message" && f[4].key == "Base64MessageHash"
    && forall i | i in {0, 1, 3, 4} :: QuoteFree(f[i].value)
  }

  lemma NewCategory(id: int, f: seq<Field>)
    requires NewShape(f)
    ensures StringOf(Json(id, f), "Category", 15) == "Test"
  {
    hide Json, StringOf, Spells;
    PlainPassed(f[0], "Category");
    FieldReads(id, f, 1, 15);
  }

  lemma NewHash(id: int, f: seq<Field>)
    requires NewShape(f) && |f[4].value| <= 63
    ensures StringOf(Json(id, f), "Base64MessageHash", 63)
            == if Spells(f[2].value, "Base64MessageHash")
               then StringOf(Alone(f[2].value), "Base64MessageHash", 63) else f[4].value
  {
    hide Json, StringOf, Spells, Alone;
    PlainPassed(f[0], "Base64MessageHash");
    PlainPassed(f[1], "Base64MessageHash");
    PlainPassed(f[3], "Base64MessageHash");
    if Spells(f[2].value, "Base64MessageHash") {
      FieldMisread(id, f, 2, "Base64MessageHash", 63);
    } else {
      FieldReads(id, f, 4, 63);
    }
  }

  lemma NewBase64(id: int, f: seq<Field>, text: string)
    requires NewShape(f) && |f[3].value| <= 511 && |f[2].value| <= |text| && text != ""
    ensures var r := StringOf(Json(id, f), "Base64Message", 511);
            if Spells(f[2].value, "Base64Message") then |r| < EncodedLength(|text|) else r == f[3].value
  {
    hide Json, StringOf, Spells;
    PlainPassed(f[0], "Base64Message");
    PlainPassed(f[1], "Base64Message");
    if Spells(f[2].value, "Base64Message") {
      FieldMisread(id, f, 2, "Base64Message", 511);
    } else {
      FieldReads(id, f, 3, 511);
    }
  }

  /** A text without quotes spells no key, so only the guards matter for it. */
  lemma QuoteFreeRoundTrip(id: int, g: Guid, text: string, digest: Digest, max: int)
    requires 0 <= id < 0x8000 && Encodable(text) && QuoteFree(text)
    ensures var r := Parsed(NewMessage(id, g, text, digest, max));
            && r.valid && r.id == id && r.category == "Test" && r.base64Hash == Encode(digest)
            && (Decode(r.base64Message) == Some(Bytes(text)) <==> NewFits(id, |text|, max))
  {
    hide NewMessage, Parsed, Spells, Encode, Decode, NewFits;
    NewRoundTrip(id, g, text, digest, max);
    GuardedShape(text, 54 + |IdText(id)|, max - 300);
    PlainPassed(Field("", ShownText(id, text, max)), "Base64Message");
    PlainPassed(Field("", ShownText(id, text, max)), "Base64MessageHash");
  }

  // ---- build_test_msg_old ----

  /** Without the text in it, only the guard matters, whatever the text is. */
  lemma OldRoundTrip(id: int, text: string, digest: Digest, max: int)
    requires IsInt(id) && Encodable(text)
    ensures var r := Parsed(OldMessage(id, text, digest, max));
            && r.valid && r.category == "Test" && r.id == (if id >= 0 then id else 0)
            && r.base64Hash == Encode(digest)
            && (Decode(r.base64Message) == Some(Bytes(text)) <==> OldFits(id, |text|, max))
  {
    hide Json, StringOf, IdOf, Encode, Decode, Spells;
    var b64, f := Encode(Bytes(text)), OldFields(id, Encode(Bytes(text)), Encode(digest), max);
    Base64IsPlain(Bytes(text));
    Base64IsPlain(digest);
    GuardedShape(b64, 42 + |IdText(id)|, max - 200);
    IdReads(id, f);
    FieldReads(id, f, 0, 15);
    PlainPassed(f[0], "Base64Message");
    FieldReads(id, f, 1, 511);
    PlainPassed(f[0], "Base64MessageHash");
    PlainPassed(f[1], "Base64MessageHash");
    FieldReads(id, f, 2, 63);
    WholeEncoding(text, f[1].value);
  }

  // ---- With the 1024-byte buffer of the callers ----

  lemma IdTextLength(id: int)
    requires IsInt(id)
    ensures |IdText(id)| <= 5
  {
    if id > 0 {
      assert Pow10(5) == 100000;
      DigitsLength(id, 5);
    }
  }

  /** The bound on the length of a text: 318 bytes always fit, and 319 do not with a five-digit
      id; the old format takes every text the encoder does. */
  lemma CallersBound(id: int, n: nat)
    requires IsInt(id) && n > 0 && EncodedLength(n) < MAX_ENCODED
    ensures NewFits(id, n, 1024) <==> n + EncodedLength(n) <= 751 - |IdText(id)|
    ensures n <= 318 ==> NewFits(id, n, 1024)
    ensures |IdText(id)| == 5 && n >= 319 ==> !NewFits(id, n, 1024)
    ensures OldFits(id, n, 1024)
  {
    IdTextLength(id);
  }
}
