/** What parse_json_response (src/main.c, src/tcp_uart.c) answers for any text, and the text that
    build_test_msg prints, spelled out. */
module MessageParsing {
  import opened Decimal
  import opened Search
  import opened Identifiers
  import opened Message
  import opened MessageRoundTrip
  import opened Base64
  import opened Wrappers

  /** The needle's first place in the text. */
  predicate FirstAt(text: string, needle: string, k: nat) {
    k <= |text| && needle <= text[k..] && forall j | 0 <= j < k :: !(needle <= text[j..])
  }

  predicate Nowhere(text: string, needle: string) {
    forall j | 0 <= j <= |text| :: !(needle <= text[j..])
  }

  lemma AfterFirst(text: string, needle: string, k: nat)
    requires FirstAt(text, needle, k)
    ensures After(text, needle).Some? && After(text, needle).value == text[k + |needle|..]
  {
    FirstIsFind(text, needle, k);
  }

  lemma AfterNowhere(text: string, needle: string)
    requires Nowhere(text, needle)
    ensures After(text, needle).None?
  {
  }

  // ---- The id ----

  predicate Blank(s: string) {
    forall i | 0 <= i < |s| :: s[i] == ' ' || s[i] == '\t'
  }

  lemma {:induction false} BlanksSkipped(blank: string, rest: string)
    requires Blank(blank) && (rest == "" || (rest[0] != ' ' && rest[0] != '\t'))
    ensures SkipBlanks(blank + rest) == rest
  {
    if blank == "" {
      assert blank + rest == rest;
    } else {
      assert (blank + rest)[1..] == blank[1..] + rest;
      BlanksSkipped(blank[1..], rest);
    }
  }

  /** Without an id key the text is no message, and its id reads as -1. */
  lemma NoIdNoMessage(text: string)
    requires Nowhere(text, "\"Id\":")
    ensures !Parsed(text).valid && Parsed(text).id == -1
  {
    hide StringOf, After;
    AfterNowhere(text, ID_NEEDLE);
  }

  /** Otherwise the id is the number that its first key is followed by, any blanks between, as a
      16-bit int, and 0 when there is none; the text is a message exactly when it is not negative. */
  lemma IdIsRead(text: string, k: nat, blank: string, digits: string, rest: string)
    requires FirstAt(text, "\"Id\":", k) && text[k + 5..] == blank + (digits + rest)
    requires Blank(blank) && AllDigits(digits) && (rest == "" || !IsDigit(rest[0]))
    requires digits == "" && rest != "" ==> rest[0] != ' ' && rest[0] != '\t'
    ensures Parsed(text).id == Int16(Value(digits)) && (Parsed(text).valid <==> Int16(Value(digits)) >= 0)
  {
    hide StringOf, After, Int16, Value;
    AfterFirst(text, ID_NEEDLE, k);
    BlanksSkipped(blank, digits + rest);
    LeadingOf(digits, rest);
  }

  // ---- The strings ----

  /** What is read for a key: the text behind the key's first place, up to a quote or the end, at
      most `limit` characters; nothing without the key. */
  lemma StringIsRead(text: string, key: string, limit: nat)
    ensures Nowhere(text, "\"" + key + "\":\"") ==> StringOf(text, key, limit) == ""
    ensures forall k: nat, v, rest ::
              FirstAt(text, "\"" + key + "\":\"", k) && text[k + |key| + 4..] == v + rest && QuoteFree(v)
              && (rest == "" || rest[0] == '"')
              ==> StringOf(text, key, limit) == if |v| <= limit then v else v[..limit]
  {
    hide After;
    var needle := "\"" + key + "\":\"";
    assert KeyNeedle(key) == needle && |needle| == |key| + 4;
    if Nowhere(text, needle) {
      AfterNowhere(text, needle);
    }
    forall k: nat, v, rest | FirstAt(text, needle, k) && text[k + |key| + 4..] == v + rest && QuoteFree(v)
                             && (rest == "" || rest[0] == '"')
      ensures StringOf(text, key, limit) == if |v| <= limit then v else v[..limit]
    {
      AfterFirst(text, needle, k);
      TakenUpTo(v, rest, limit);
    }
  }

  lemma TakenUpTo(v: string, rest: string, limit: nat)
    requires QuoteFree(v) && (rest == "" || rest[0] == '"')
    ensures Taken(v + rest, limit) == if |v| <= limit then v else v[..limit]
  {
    if rest == "" {
      assert v + rest == v;
      TakenWhole(v, limit);
    } else {
      assert v + rest == v + "\"" + rest[1..];
      TakenOf(v, rest[1..], limit);
    }
  }

  /** The three strings of a response and their limits. */
  lemma ThreeStrings(text: string)
    ensures var r := Parsed(text);
            && r.category == StringOf(text, "Category", 15)
            && r.base64Message == StringOf(text, "Base64Message", 511)
            && r.base64Hash == StringOf(text, "Base64MessageHash", 63)
  {
  }

  // ---- What is printed ----

  /** The text of build_test_msg, from one brace to the other. */
  lemma NewMessageText(id: int, g: Guid, text: string, digest: Digest, max: int)
    requires CText(text)
    ensures var b64, hash := Encode(Bytes(text)), Encode(digest);
            var t5 := "\"RspReceivedOK\":false}";
            var t4 := "\"Base64MessageHash\":\"" + (hash + ("\"," + t5));
            var t3 := "\"Base64Message\":\"" + (ShownBase64(id, text, b64, max) + ("\"," + t4));
            var t2 := "\"Message\":\"" + (ShownText(id, text, max) + ("\"," + t3));
            var t1 := "\"Category\":\"" + ("Test" + ("\"," + t2));
            var t0 := "\"Guid\":\"" + (Print(g) + ("\"," + t1));
            NewMessage(id, g, text, digest, max) == "{\"Id\":" + (IdText(id) + ("," + t0))
  {
    hide Encode, IdText, Print, ShownText, ShownBase64, FieldsText;
    var f := NewFields(id, g, text, Encode(Bytes(text)), Encode(digest), max);
    FieldThen(f, 0, "\"Guid\":\"");
    FieldThen(f, 1, "\"Category\":\"");
    FieldThen(f, 2, "\"Message\":\"");
    FieldThen(f, 3, "\"Base64Message\":\"");
    FieldThen(f, 4, "\"Base64MessageHash\":\"");
    LastField(f);
    JsonFrom(id, f);
  }

  /** A field in front of the others, and TAIL behind them all. */
  lemma FieldThen(f: seq<Field>, i: nat, opening: string)
    requires i < |f| && "\"" + f[i].key + "\":\"" == opening
    ensures FieldsText(f[i..]) + TAIL == opening + (f[i].value + ("\"," + (FieldsText(f[i + 1..]) + TAIL)))
  {
    assert f[i..][1..] == f[i + 1..];
    var k, v, rest := f[i].key, f[i].value, FieldsText(f[i + 1..]);
    hide FieldsText, TAIL;
    assert Quoted(f[i]) == opening + v + "\"";
  }

  lemma LastField(f: seq<Field>)
    ensures FieldsText(f[|f|..]) + TAIL == "\"RspReceivedOK\":false}"
  {
    assert f[|f|..] == [];
  }

  lemma JsonFrom(id: int, f: seq<Field>)
    ensures Json(id, f) == "{\"Id\":" + (IdText(id) + ("," + (FieldsText(f[0..]) + TAIL)))
  {
    hide IdText, FieldsText, TAIL;
    assert f[0..] == f;
  }

  /** The text of build_test_msg_old. */
  lemma OldMessageText(id: int, text: string, digest: Digest, max: int)
    requires CText(text)
    ensures var b64, hash := Encode(Bytes(text)), Encode(digest);
            var t3 := "\"RspReceivedOK\":false}";
            var t2 := "\"Base64MessageHash\":\"" + (hash + ("\"," + t3));
            var t1 := "\"Base64Message\":\"" + (OldShownBase64(id, b64, max) + ("\"," + t2));
            var t0 := "\"Category\":\"" + ("Test" + ("\"," + t1));
            OldMessage(id, text, digest, max) == "{\"Id\":" + (IdText(id) + ("," + t0))
  {
    hide Encode, IdText, OldShownBase64, FieldsText;
    var f := OldFields(id, Encode(Bytes(text)), Encode(digest), max);
    FieldThen(f, 0, "\"Category\":\"");
    FieldThen(f, 1, "\"Base64Message\":\"");
    FieldThen(f, 2, "\"Base64MessageHash\":\"");
    LastField(f);
    JsonFrom(id, f);
  }

  /** How much of the text and of its encoding is printed: all of it up to the position that the
      buffer's size leaves, 300 and 200 bytes before its end. */
  lemma ShownUpTo(id: int, text: string, b64: string, max: int)
    ensures var s, at := ShownText(id, text, max), 54 + |IdText(id)|;
            s <= text && (at + |s| <= max - 300 || s == "") && (s == text || at + |s| >= max - 300)
    ensures var s, at := ShownBase64(id, text, b64, max), 73 + |IdText(id)| + |ShownText(id, text, max)|;
            s <= b64 && (at + |s| <= max - 200 || s == "") && (s == b64 || at + |s| >= max - 200)
    ensures var s, at := OldShownBase64(id, b64, max), 42 + |IdText(id)|;
            s <= b64 && (at + |s| <= max - 200 || s == "") && (s == b64 || at + |s| >= max - 200)
  {
    hide IdText;
  }

  // ---- The identifier of a payload ----

  /** Digits are printed in upper case and read in either. */
  lemma HexDigits(d: nat)
    requires d < 16
    ensures HexChar(d) == "0123456789ABCDEF"[d]
    ensures HexValue("0123456789ABCDEF"[d]) == HexValue("0123456789abcdef"[d]) == d
  {
  }

  /** Any other character counts as zero. */
  lemma OtherDigits(c: char)
    requires c !in "0123456789ABCDEF" && c !in "0123456789abcdef"
    ensures HexValue(c) == 0
  {
    var v := HexValue(c);
    assert "0123456789ABCDEF"[v] != c && "0123456789abcdef"[v] != c;
    HexDigits(v);
  }

  lemma {:induction false} SpacesSkipped(n: nat, rest: string)
    requires rest == "" || rest[0] != ' '
    ensures SkipSpaces(seq(n, _ => ' ') + rest) == rest
  {
    if n == 0 {
      assert seq(n, _ => ' ') + rest == rest;
    } else {
      assert (seq(n, _ => ' ') + rest)[1..] == seq(n - 1, _ => ' ') + rest;
      SpacesSkipped(n - 1, rest);
    }
  }

  lemma {:induction false} NoBrace(noise: string)
    requires '{' !in noise
    ensures FromBrace(noise) == ""
  {
    if noise != "" {
      NoBrace(noise[1..]);
    }
  }

  lemma {:induction false} CStringIsAll(s: string)
    requires NUL !in s
    ensures CString(s) == s
  {
    CStringKeeps(s, "");
    assert s + "" == s;
  }

  /** A payload without a brace, or without the key behind its first one, holds no identifier. */
  lemma ExtractsNothing(noise: string, text: string)
    requires '{' !in noise && NUL !in text && (text == "" || text[0] == '{') && Nowhere(text, "\"Guid\"")
    ensures Extracted(noise + text) == None
  {
    hide After, CString, Taken;
    AfterNowhere(text, GUID_NEEDLE);
    CStringIsAll(text);
    if text == "" {
      NoBrace(noise);
      assert noise + text == noise;
    } else {
      FromBraceSkips(noise, text);
    }
  }

  /** The object that is searched ends at the first NUL behind its brace. */
  lemma ExtractsToNul(noise: string, text: string, rest: string)
    requires '{' !in noise && NUL !in text && text != "" && text[0] == '{'
    ensures Extracted(noise + text + [NUL] + rest) == Extracted(noise + text)
  {
    hide After, Taken, FromBrace;
    assert noise + text + [NUL] + rest == noise + (text + ([NUL] + rest));
    FromBraceSkips(noise, text);
    FromBraceSkips(noise, text + ([NUL] + rest));
    CStringKeeps(text, [NUL] + rest);
    CStringIsAll(text);
    assert text + "" == text;
  }

  /** Behind the first key, a colon and a quote, with any number of spaces around the colon, the
      first eight characters of the value are the identifier; a shorter value is none. */
  lemma ExtractsFirst(noise: string, text: string, k: nat, n: nat, m: nat, v: string, rest: string)
    requires '{' !in noise && NUL !in text && text != "" && text[0] == '{' && FirstAt(text, "\"Guid\"", k)
    requires text[k + 6..] == seq(n, _ => ' ') + (":" + (seq(m, _ => ' ') + ("\"" + (v + rest))))
    requires QuoteFree(v) && (rest == "" || rest[0] == '"')
    ensures Extracted(noise + text) == if |v| >= 8 then Some(Guid(Parse(v[..4]), Parse(v[4..8]))) else None
  {
    hide After, CString, Taken, Parse, SkipSpaces, FromBrace;
    AfterFirst(text, GUID_NEEDLE, k);
    CStringIsAll(text);
    FromBraceSkips(noise, text);
    var r2 := "\"" + (v + rest);
    var r1 := ":" + (seq(m, _ => ' ') + r2);
    SpacesSkipped(n, r1);
    SpacesSkipped(m, r2);
    assert r1[1..] == seq(m, _ => ' ') + r2 && r2[1..] == v + rest;
    TakenUpTo(v, rest, 8);
    assert |GUID_NEEDLE| == 6 && SkipOne(r1, ':') == r1[1..] && SkipOne(r2, '"') == r2[1..];
    assert After(CString(FromBrace(noise + text)), GUID_NEEDLE) == Some(text[k + 6..]);
    assert Extracted(noise + text) == Value8(Taken(v + rest, 8));
    var t := Taken(v + rest, 8);
    assert Value8(t) == if |t| == 8 then Some(Guid(Parse(t[..4]), Parse(t[4..]))) else None;
    assert t == if |v| <= 8 then v else v[..8];
    if |v| >= 8 {
      assert t == v[..8] && t[..4] == v[..4] && t[4..] == v[4..8];
    }
  }
}
