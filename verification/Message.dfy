/** The JSON messages: what build_test_msg and build_test_msg_old print, what parse_json_response
    reads (src/main.c, src/tcp_uart.c), and when the one recovers the other. */
module Message {
  import opened Decimal
  import opened Search
  import opened Identifiers
  import opened Wrappers

  // ---- The printed text ----

  predicate IsInt(x: int) {
    -0x8000 <= x < 0x8000
  }

  /** The digits of a message id; a negative one prints none. */
  function IdText(id: int): string {
    if id < 0 then "" else Show(id)
  }

  function Quoted(f: Field): string {
    "\"" + f.key + "\":\"" + f.value + "\""
  }

  function FieldsText(fields: seq<Field>): string {
    if fields == [] then "" else Quoted(fields[0]) + "," + FieldsText(fields[1..])
  }

  function Head(id: int): string {
    "{\"Id\":" + IdText(id) + ","
  }

  const TAIL := "\"RspReceivedOK\":false}"

  function Json(id: int, fields: seq<Field>): string {
    Head(id) + FieldsText(fields) + TAIL
  }

  /** The bytes of a C string: one to a character, none of them NUL. */
  predicate CText(s: string) {
    forall i | 0 <= i < |s| :: s[i] != NUL && s[i] as int < 256
  }

  function Bytes(s: string): (b: seq<bv8>)
    requires CText(s)
    ensures |b| == |s|
  {
    seq(|s|, i requires 0 <= i < |s| => s[i] as int as bv8)
  }

  /** What a copy loop that stops at position `limit` keeps of a text it copies to `at`. */
  function Guarded(s: string, at: nat, limit: int): string {
    if at + |s| <= limit then s else if at < limit then s[..limit - at] else ""
  }

  function ShownText(id: int, text: string, max: int): string {
    Guarded(text, 54 + |IdText(id)|, max - 300)
  }

  function ShownBase64(id: int, text: string, b64: string, max: int): string {
    Guarded(b64, 73 + |IdText(id)| + |ShownText(id, text, max)|, max - 200)
  }

  /** The fields of build_test_msg. */
  function NewFields(id: int, g: Guid, text: string, b64: string, hash: string, max: int): seq<Field> {
    [Field("Guid", Print(g)), Field("Category", "Test"), Field("Message", ShownText(id, text, max)),
     Field("Base64Message", ShownBase64(id, text, b64, max)), Field("Base64MessageHash", hash)]
  }

  function OldShownBase64(id: int, b64: string, max: int): string {
    Guarded(b64, 42 + |IdText(id)|, max - 200)
  }

  /** The fields of build_test_msg_old, which is also tcp_uart.c's build_test_msg. */
  function OldFields(id: int, b64: string, hash: string, max: int): seq<Field> {
    [Field("Category", "Test"), Field("Base64Message", OldShownBase64(id, b64, max)),
     Field("Base64MessageHash", hash)]
  }

  // ---- The parser ----

  datatype Response = Response(id: int, category: string, base64Message: string, base64Hash: string, valid: bool)

  const ID_NEEDLE := "\"Id\":"

  function SkipBlanks(s: string): string {
    if s != "" && (s[0] == ' ' || s[0] == '\t') then SkipBlanks(s[1..]) else s
  }

  function IdOf(json: string): int {
    match After(json, ID_NEEDLE)
    case None => -1
    case Some(r) => Int16(Decimal.Value(Leading(SkipBlanks(r))))
  }

  function StringOf(json: string, key: string, limit: nat): string {
    match After(json, KeyNeedle(key))
    case None => ""
    case Some(r) => Taken(r, limit)
  }

  function Parsed(json: string): Response {
    Response(IdOf(json), StringOf(json, "Category", 15), StringOf(json, "Base64Message", 511),
             StringOf(json, "Base64MessageHash", 63), IdOf(json) >= 0)
  }

  method SkipBlanksAt(s: string, from: nat) returns (at: nat)
    requires from <= |s|
    ensures from <= at <= |s| && s[at..] == SkipBlanks(s[from..])
  {
    at := from;
    while at < |s| && (s[at] == ' ' || s[at] == '\t')
      invariant from <= at <= |s| && SkipBlanks(s[at..]) == SkipBlanks(s[from..])
    {
      assert s[at..][1..] == s[at + 1..];
      at := at + 1;
    }
  }

  /** One of the three blocks for a string field. */
  method ReadString(json: string, key: string, limit: nat) returns (field: string)
    ensures field == StringOf(json, key, limit)
  {
    hide Taken;
    var k := MyStrstr(json, KeyNeedle(key));
    if k < 0 {
      return "";
    }
    assert After(json, KeyNeedle(key)) == Some(json[k + |KeyNeedle(key)|..]);
    field := TakeAt(json, k + |KeyNeedle(key)|, limit);
  }

  method ReadId(json: string) returns (id: int)
    ensures id == IdOf(json)
  {
    hide Int16, Leading, SkipBlanks;
    var k := MyStrstr(json, ID_NEEDLE);
    if k < 0 {
      return -1;
    }
    assert After(json, ID_NEEDLE) == Some(json[k + |ID_NEEDLE|..]);
    var p := SkipBlanksAt(json, k + |ID_NEEDLE|);
    id := ParseNumber(json[p..]);
  }

  method ParseJsonResponse(json: string) returns (valid: bool, msg: Response)
    ensures msg == Parsed(json) && valid == msg.valid
    ensures (forall k | 0 <= k <= |json| :: !("\"Id\":" <= json[k..])) ==> !valid && msg.id == -1
  {
    var id := ReadId(json);
    var category := ReadString(json, "Category", 15);
    var message := ReadString(json, "Base64Message", 511);
    var hash := ReadString(json, "Base64MessageHash", 63);
    msg := Response(id, category, message, hash, id >= 0);
    valid := msg.valid;
  }

  // ---- The printed text as pieces between quotes ----

  const LAST := ["RspReceivedOK", ":false}"]

  function JsonPieces(id: int, fields: seq<Field>): seq<string>
    requires PlainKeys(fields)
  {
    ["{", "Id", ":" + IdText(id) + ","] + Pieces(fields, LAST)
  }

  lemma {:induction false} Spelled(pre: string, fields: seq<Field>)
    requires PlainKeys(fields)
    ensures Joined([pre] + Pieces(fields, LAST)) == pre + FieldsText(fields) + TAIL
    decreases |fields|
  {
    hide Joined, Split, Quoted;
    if fields == [] {
      JoinedSplits(pre, LAST);
      JoinedSplits("RspReceivedOK", [":false}"]);
      JoinedOne(":false}");
      assert LAST == ["RspReceivedOK"] + [":false}"];
      assert TAIL == "\"" + ("RspReceivedOK" + ("\"" + ":false}"));
    } else {
      var f, rest := fields[0], [","] + Pieces(fields[1..], LAST);
      Spelled(",", fields[1..]);
      FieldSpelled(pre, f, rest);
      assert [pre] + Pieces(fields, LAST) == [pre] + ([f.key] + ([":"] + (Split(f.value) + rest)));
    }
  }

  lemma FieldSpelled(pre: string, f: Field, rest: seq<string>)
    requires rest != []
    ensures Joined([pre] + ([f.key] + ([":"] + (Split(f.value) + rest)))) == pre + (Quoted(f) + Joined(rest))
  {
    hide Joined, Split;
    var r2 := Split(f.value) + rest;
    var r1 := [":"] + r2;
    var r0 := [f.key] + r1;
    JoinedSplit(f.value);
    JoinedConcat(Split(f.value), rest);
    JoinedSplits(":", r2);
    JoinedSplits(f.key, r1);
    JoinedSplits(pre, r0);
    assert Quoted(f) == "\"" + (f.key + ("\"" + (":" + ("\"" + (f.value + "\"")))));
  }

  lemma JsonIsPieces(id: int, fields: seq<Field>)
    requires PlainKeys(fields)
    ensures Json(id, fields) == Joined(JsonPieces(id, fields)) && AllQuoteFree(JsonPieces(id, fields))
  {
    hide Joined, Pieces, FieldsText, IdText, TAIL;
    var x := ":" + IdText(id) + ",";
    var r := [x] + Pieces(fields, LAST);
    IdTextIsDigits(id);
    Spelled(x, fields);
    JoinedSplits("Id", r);
    JoinedSplits("{", ["Id"] + r);
    assert JsonPieces(id, fields) == ["{"] + (["Id"] + r);
    assert Head(id) == "{" + ("\"" + ("Id" + ("\"" + x)));
  }

  lemma IdTextIsDigits(id: int)
    ensures AllDigits(IdText(id)) && QuoteFree(IdText(id)) && NUL !in IdText(id)
  {
    assert forall i | 0 <= i < |IdText(id)| :: IsDigit(IdText(id)[i]);
  }

  // ---- Reading fields back ----

  function Reading(r: Option<seq<string>>, limit: nat): string
    requires r.Some? ==> r.value != []
  {
    match r
    case None => ""
    case Some(p) => if |p[0]| <= limit then p[0] else p[0][..limit]
  }

  /** What is read for a key is the piece behind the first key and colon, cut at the limit. */
  lemma ReadsPair(id: int, fields: seq<Field>, key: string, limit: nat)
    requires PlainKeys(fields) && IsKey(key) && key != "Id"
    ensures StringOf(Json(id, fields), key, limit)
            == Reading(PairAt([":" + IdText(id) + ","] + Pieces(fields, LAST), key), limit)
  {
    hide After, Joined, Taken, Json, Pieces;
    var p := JsonPieces(id, fields);
    JsonIsPieces(id, fields);
    AfterIsPair(p, key);
    PairIsPlain(p, key);
    PiecesStart(fields);
    var q := [":" + IdText(id) + ","] + Pieces(fields, LAST);
    assert p[1..] == ["Id"] + q && p[1..][1..] == q;
    assert PairAt(p, key) == PairAt(p[1..], key) == PairAt(q, key);
    if PairAt(p, key).Some? {
      TakenFirst(PairAt(p, key).value, limit);
    }
  }

  lemma PiecesStart(fields: seq<Field>)
    requires PlainKeys(fields)
    ensures |Pieces(fields, LAST)| >= 2 && Pieces(fields, LAST)[0] != ":"
  {
  }

  lemma {:induction false} PairIsPlain(p: seq<string>, key: string)
    requires p != [] && AllQuoteFree(p)
    ensures PairAt(p, key).Some? ==> AllQuoteFree(PairAt(p, key).value)
  {
    if |p| > 1 {
      PairIsPlain(p[1..], key);
    }
  }

  lemma TakenFirst(p: seq<string>, limit: nat)
    requires p != [] && AllQuoteFree(p)
    ensures Taken(Joined(p), limit) == if |p[0]| <= limit then p[0] else p[0][..limit]
  {
    hide Joined, Taken;
    if |p| == 1 {
      assert p == [p[0]];
      JoinedOne(p[0]);
      TakenWhole(p[0], limit);
    } else {
      assert p == [p[0]] + p[1..];
      JoinedSplits(p[0], p[1..]);
      assert Joined(p) == p[0] + "\"" + Joined(p[1..]);
      TakenOf(p[0], Joined(p[1..]), limit);
    }
  }

  /** A key's search passes the fields before its own unless they spell the key; what is read is
      then the value, cut at the limit. */
  lemma FieldReads(id: int, fields: seq<Field>, j: nat, limit: nat)
    requires PlainKeys(fields) && j < |fields| && fields[j].key != "Id" && QuoteFree(fields[j].value)
    requires forall i | 0 <= i < j :: Passed(fields[i], fields[j].key)
    ensures var v := fields[j].value;
            StringOf(Json(id, fields), fields[j].key, limit) == if |v| <= limit then v else v[..limit]
  {
    hide Pieces, PairAt, Json, Split, StringOf;
    ReadsPair(id, fields, fields[j].key, limit);
    FindsField(":" + IdText(id) + ",", fields, LAST, j);
    SplitOfQuoteFree(fields[j].value);
  }

  /** A value with its quotes and comma, up to the quote behind it. */
  function Alone(value: string): string {
    "\"" + (value + ("\"" + ("," + ("\"" + ""))))
  }

  lemma AloneReads(value: string, key: string, limit: nat)
    requires IsKey(key)
    ensures StringOf(Alone(value), key, limit) == Reading(PairAt(AlonePieces(value), key), limit)
  {
    hide After, Joined, Taken, Split;
    var v := Split(value);
    var p := AlonePieces(value);
    assert [""] + v + [","] + [""] == [""] + (v + ([","] + [""]));
    JoinedSplits("", v + ([","] + [""]));
    JoinedConcat(v, [","] + [""]);
    JoinedSplit(value);
    JoinedSplits(",", [""]);
    JoinedOne("");
    assert Joined(p) == Alone(value);
    AfterIsPair(p, key);
    PairIsPlain(p, key);
    if PairAt(p, key).Some? {
      TakenFirst(PairAt(p, key).value, limit);
    }
  }

  /** When an earlier value spells the key, the parser reads out of that value what it would read
      if there were nothing else: something no longer than the value, or a comma. */
  lemma FieldMisread(id: int, fields: seq<Field>, j: nat, key: string, limit: nat)
    requires PlainKeys(fields) && j < |fields| && IsKey(key) && key != "Id"
    requires forall i | 0 <= i < j :: Passed(fields[i], key)
    requires fields[j].key != key && Spells(fields[j].value, key)
    ensures var r := StringOf(Json(id, fields), key, limit);
            r == StringOf(Alone(fields[j].value), key, limit) && (|r| <= |fields[j].value| || |r| <= 1)
  {
    hide Pieces, PairAt, Json, AlonePieces, StringOf, Alone;
    ReadsPair(id, fields, key, limit);
    AloneReads(fields[j].value, key, limit);
    StopsInField(":" + IdText(id) + ",", fields, LAST, j, key);
  }

  lemma IdStands(id: int, fields: seq<Field>)
    ensures Json(id, fields) == "{" + (ID_NEEDLE + (IdText(id) + ("," + FieldsText(fields) + TAIL)))
  {
    hide FieldsText, IdText, TAIL;
    assert Head(id) == "{" + ID_NEEDLE + IdText(id) + ",";
    var a, b := IdText(id), "," + FieldsText(fields) + TAIL;
    assert Json(id, fields) == "{" + ID_NEEDLE + a + b;
  }

  /** The id comes back exactly when it is not negative; a negative one is read as zero. */
  lemma IdReads(id: int, fields: seq<Field>)
    requires IsInt(id)
    ensures IdOf(Json(id, fields)) == if id >= 0 then id else 0
  {
    hide After, Leading, Json, FieldsText, TAIL;
    var rest := "," + FieldsText(fields) + TAIL;
    var r := IdText(id) + rest;
    IdStands(id, fields);
    AfterSkips("{", ID_NEEDLE + r, ID_NEEDLE);
    AfterHere(ID_NEEDLE, r);
    IdTextIsDigits(id);
    assert r[0] != ' ' && r[0] != '\t';
    LeadingOf(IdText(id), rest);
    if id >= 0 {
      ParseInvertsItoa(id, rest);
    }
  }
}
