/** my_strstr, and where it finds a key in a text of quoted pieces. */
module Search {
  import opened Wrappers

  /** Index of the first occurrence of `needle`, or -1. */
  function Find(hay: string, needle: string): (k: int)
    ensures k >= 0 ==> k <= |hay| && needle <= hay[k..] && forall j | 0 <= j < k :: !(needle <= hay[j..])
    ensures k < 0 ==> k == -1 && forall j | 0 <= j <= |hay| :: !(needle <= hay[j..])
  {
    if needle <= hay then 0
    else if hay == "" then -1
    else
      var r := Find(hay[1..], needle);
      assert forall j | 0 < j <= |hay| :: hay[j..] == hay[1..][j - 1..];
      if r < 0 then -1 else r + 1
  }

  /** The nested loops of my_strstr. */
  method MyStrstr(hay: string, needle: string) returns (k: int)
    ensures k == Find(hay, needle)
  {
    if needle == "" {
      return 0;
    }
    k := 0;
    while k < |hay|
      invariant 0 <= k <= |hay|
      invariant forall j | 0 <= j < k :: !(needle <= hay[j..])
    {
      var n := 0;
      while k + n < |hay| && n < |needle| && hay[k + n] == needle[n]
        invariant 0 <= n <= |needle| && k + n <= |hay|
        invariant forall i | 0 <= i < n :: hay[k + i] == needle[i]
      {
        n := n + 1;
      }
      if n == |needle| {
        assert forall i | 0 <= i < n :: hay[k..][i] == hay[k + i];
        FirstIsFind(hay, needle, k);
        return k;
      }
      assert !(needle <= hay[k..]);
      k := k + 1;
    }
    NoneIsFind(hay, needle);
    return -1;
  }

  lemma FirstIsFind(hay: string, needle: string, k: nat)
    requires k <= |hay| && needle <= hay[k..] && forall j | 0 <= j < k :: !(needle <= hay[j..])
    ensures Find(hay, needle) == k
  {
  }

  lemma NoneIsFind(hay: string, needle: string)
    requires needle != "" && forall j | 0 <= j < |hay| :: !(needle <= hay[j..])
    ensures Find(hay, needle) == -1
  {
  }

  /** What follows the first occurrence. */
  function After(hay: string, needle: string): Option<string> {
    var k := Find(hay, needle); if k < 0 then None else Some(hay[k + |needle|..])
  }

  lemma AfterHere(needle: string, rest: string)
    ensures After(needle + rest, needle) == Some(rest)
  {
    assert needle <= needle + rest;
  }

  lemma AfterSkipsOne(hay: string, needle: string)
    requires hay != "" && !(needle <= hay)
    ensures After(hay, needle) == After(hay[1..], needle)
  {
    var r := Find(hay[1..], needle);
    if r >= 0 {
      assert hay[r + 1 + |needle|..] == hay[1..][r + |needle|..];
    }
  }

  predicate QuoteFree(s: string) {
    '"' !in s
  }

  lemma {:induction false} AfterSkips(s: string, rest: string, needle: string)
    requires needle != "" && needle[0] !in s
    ensures After(s + rest, needle) == After(rest, needle)
  {
    hide After;
    if s == "" {
      assert s + rest == rest;
    } else {
      var hay := s + rest;
      assert hay[0] == s[0] && hay[1..] == s[1..] + rest;
      AfterSkipsOne(hay, needle);
      AfterSkips(s[1..], rest, needle);
    }
  }

  // ---- Texts as pieces separated by quotes ----

  function Joined(p: seq<string>): string
    requires p != []
  {
    if |p| == 1 then p[0] else p[0] + "\"" + Joined(p[1..])
  }

  function Split(s: string): (p: seq<string>)
    ensures p != [] && AllQuoteFree(p)
  {
    if s == "" then [""]
    else
      var p := Split(s[1..]);
      if s[0] == '"' then [""] + p else [[s[0]] + p[0]] + p[1..]
  }

  predicate AllQuoteFree(p: seq<string>) {
    forall i | 0 <= i < |p| :: QuoteFree(p[i])
  }

  lemma JoinedSplits(s: string, rest: seq<string>)
    requires rest != []
    ensures Joined([s] + rest) == s + ("\"" + Joined(rest))
  {
    assert ([s] + rest)[1..] == rest;
  }

  lemma JoinedOne(s: string)
    ensures Joined([s]) == s
  {
  }

  lemma {:induction false} JoinedConcat(p: seq<string>, q: seq<string>)
    requires p != [] && q != []
    ensures Joined(p + q) == Joined(p) + ("\"" + Joined(q))
  {
    hide Joined;
    assert p == [p[0]] + p[1..];
    if |p| == 1 {
      assert p == [p[0]];
      JoinedSplits(p[0], q);
      JoinedOne(p[0]);
    } else {
      JoinedConcat(p[1..], q);
      assert p + q == [p[0]] + (p[1..] + q);
      JoinedSplits(p[0], p[1..] + q);
      JoinedSplits(p[0], p[1..]);
    }
  }

  lemma {:induction false} JoinedSplit(s: string)
    ensures Joined(Split(s)) == s
  {
    if s != "" {
      var p := Split(s[1..]);
      JoinedSplit(s[1..]);
      if s[0] == '"' {
        JoinedSplits("", p);
      } else if |p| > 1 {
        JoinedSplits([s[0]] + p[0], p[1..]);
        assert p == [p[0]] + p[1..];
        JoinedSplits(p[0], p[1..]);
      }
    }
  }

  lemma {:induction false} SplitOfQuoteFree(s: string)
    requires QuoteFree(s)
    ensures Split(s) == [s]
  {
    if s != "" {
      assert s == [s[0]] + s[1..];
      SplitOfQuoteFree(s[1..]);
    }
  }

  lemma {:induction false} PieceLength(p: seq<string>, i: nat)
    requires i < |p|
    ensures |p[i]| <= |Joined(p)|
  {
    if i > 0 {
      PieceLength(p[1..], i - 1);
    }
  }

  /** The search string for a key with a string value: "key":" */
  function KeyNeedle(key: string): string {
    "\"" + key + "\":\""
  }

  /** When one text is a prefix of another, they agree up to their first quotes. */
  lemma {:induction false} QuotesAlign(x: string, y: string, u: string, v: string)
    requires QuoteFree(x) && QuoteFree(y) && x + "\"" + u <= y + "\"" + v
    ensures x == y && u <= v
  {
    var s, t := x + "\"" + u, y + "\"" + v;
    assert s[0] == t[0];
    if x == "" || y == "" {
      assert x == y;
      assert s[1..] == u && t[1..] == v;
    } else {
      assert s[1..] == x[1..] + "\"" + u && t[1..] == y[1..] + "\"" + v;
      QuotesAlign(x[1..], y[1..], u, v);
    }
  }

  lemma PrefixOfTail(s: string, t: string)
    requires s != "" && s <= t
    ensures s[1..] <= t[1..]
  {
  }

  lemma NeedsQuote(x: string, u: string, s: string)
    requires QuoteFree(s)
    ensures !(x + "\"" + u <= s)
  {
    assert (x + "\"" + u)[|x|] == '"';
  }

  /** The needle stands at the quote before these pieces exactly when they begin with the key, a
      colon and at least one more piece. */
  predicate StartsPair(p: seq<string>, key: string) {
    |p| >= 3 && p[0] == key && p[1] == ":"
  }

  lemma NeedleAt(p: seq<string>, key: string)
    requires p != [] && AllQuoteFree(p) && QuoteFree(key)
    ensures KeyNeedle(key) <= "\"" + Joined(p) <==> StartsPair(p, key)
  {
    hide Joined;
    var needle, hay := "\"" + (key + "\"" + (":" + "\"" + "")), "\"" + Joined(p);
    assert KeyNeedle(key) == needle;
    assert needle[1..] == key + "\"" + (":" + "\"" + "") && hay[1..] == Joined(p);
    if needle <= hay {
      PrefixOfTail(needle, hay);
    }
    assert p == [p[0]] + p[1..];
    if |p| == 1 {
      assert p == [p[0]];
      JoinedOne(p[0]);
      NeedsQuote(key, ":" + "\"" + "", p[0]);
    } else {
      JoinedSplits(p[0], p[1..]);
      var tail := Joined(p[1..]);
      assert Joined(p) == p[0] + "\"" + tail;
      if needle <= hay {
        QuotesAlign(key, p[0], ":" + "\"" + "", tail);
      }
      assert p[1..] == [p[1]] + p[2..];
      if |p| == 2 {
        assert p[1..] == [p[1]];
        JoinedOne(p[1]);
        NeedsQuote(":", "", p[1]);
      } else {
        JoinedSplits(p[1], p[2..]);
        assert tail == p[1] + "\"" + Joined(p[2..]);
        if StartsPair(p, key) {
          assert hay == needle + Joined(p[2..]);
        }
        if needle <= hay {
          QuotesAlign(":", p[1], "", Joined(p[2..]));
        }
      }
    }
  }

  /** The pieces behind the first key and colon; the first piece stands before the first quote. */
  function PairAt(p: seq<string>, key: string): (r: Option<seq<string>>)
    requires p != []
    ensures r.Some? ==> r.value != []
  {
    if |p| == 1 then None
    else if StartsPair(p[1..], key) then Some(p[3..])
    else PairAt(p[1..], key)
  }

  /** Searching a text for a key finds its first pair of a key piece and a colon piece. */
  lemma {:induction false} AfterIsPair(p: seq<string>, key: string)
    requires p != [] && AllQuoteFree(p) && QuoteFree(key)
    ensures After(Joined(p), KeyNeedle(key))
            == match PairAt(p, key) case None => None case Some(r) => Some(Joined(r))
  {
    hide After, Joined;
    var needle := KeyNeedle(key);
    assert p == [p[0]] + p[1..];
    if |p| == 1 {
      assert p == [p[0]];
      JoinedOne(p[0]);
      AfterSkips(p[0], "", needle);
      assert p[0] + "" == p[0];
      AfterNothing(needle);
    } else {
      var rest := Joined(p[1..]);
      JoinedSplits(p[0], p[1..]);
      AfterSkips(p[0], "\"" + rest, needle);
      NeedleAt(p[1..], key);
      if StartsPair(p[1..], key) {
        assert p[1..] == [key] + ([":"] + p[3..]);
        JoinedSplits(key, [":"] + p[3..]);
        JoinedSplits(":", p[3..]);
        assert "\"" + rest == needle + Joined(p[3..]);
        AfterHere(needle, Joined(p[3..]));
      } else {
        AfterSkipsOne("\"" + rest, needle);
        assert ("\"" + rest)[1..] == rest;
        AfterIsPair(p[1..], key);
      }
    }
  }

  lemma AfterNothing(needle: string)
    requires needle != ""
    ensures After("", needle) == None
  {
  }

  // ---- Walking over pieces ----

  predicate HasPair(p: seq<string>, key: string) {
    |p| >= 2 && ((p[0] == key && p[1] == ":") || HasPair(p[1..], key))
  }

  /** Between quotes, a value holds a key's search string exactly when its pieces hold a pair. */
  predicate Spells(value: string, key: string) {
    Find("\"" + value + "\"", KeyNeedle(key)) >= 0
  }

  lemma SpellsPair(value: string, key: string)
    requires QuoteFree(key)
    ensures Spells(value, key) <==> HasPair(Split(value), key)
  {
    hide Joined, Split;
    var p := Split(value);
    var q := [""] + p + [""];
    assert "\"" + value + "\"" == Joined(q) by {
      JoinedConcat(p, [""]);
      JoinedSplit(value);
      JoinedOne("");
      JoinedSplits("", p + [""]);
      assert q == [""] + (p + [""]);
    }
    AfterIsPair(q, key);
    PairBetween("", p, "", key);
  }

  lemma {:induction false} PairBetween(x: string, p: seq<string>, y: string, key: string)
    requires p != []
    ensures PairAt([x] + p + [y], key).Some? <==> HasPair(p, key)
    decreases |p|
  {
    var q := [x] + p + [y];
    assert q[1..] == p + [y];
    if |p| == 1 {
      assert PairAt(q[1..], key) == PairAt(q[1..][1..], key);
    } else {
      assert q[1..] == [p[0]] + p[1..] + [y];
      PairBetween(p[0], p[1..], y, key);
    }
  }

  predicate IsKey(key: string) {
    QuoteFree(key) && key != ":" && key != ","
  }

  /** The search passes a value that does not spell the key. */
  lemma {:induction false} PastValue(x: string, p: seq<string>, rest: seq<string>, key: string)
    requires p != [] && IsKey(key) && !HasPair(p, key)
    ensures PairAt([x] + p + [","] + rest, key) == PairAt([","] + rest, key)
    decreases |p|
  {
    var q := [x] + p + [","] + rest;
    if |p| == 1 {
      assert q[1..] == [p[0], ","] + rest && q[1..][1..] == [","] + rest;
    } else {
      assert q[1..] == [p[0]] + p[1..] + [","] + rest;
      PastValue(p[0], p[1..], rest, key);
    }
  }

  /** In a value that spells the key it stops; what is found there is no longer than the value. */
  lemma {:induction false} InValue(x: string, p: seq<string>, rest: seq<string>, key: string)
    requires p != [] && HasPair(p, key)
    ensures var r := PairAt([x] + p + [","] + rest, key);
            r.Some? && (r.value[0] == "," || r.value[0] in p)
    decreases |p|
  {
    var q := [x] + p + [","] + rest;
    assert q[1..] == [p[0]] + p[1..] + [","] + rest;
    if p[0] == key && p[1] == ":" {
      assert q[3..][0] == if |p| > 2 then p[2] else ",";
    } else {
      InValue(p[0], p[1..], rest, key);
    }
  }

  /** What stands before the value and behind its comma makes no difference. */
  lemma {:induction false} InValueAlone(x: string, y: string, p: seq<string>, rest: seq<string>, other: seq<string>,
                                        key: string)
    requires p != [] && HasPair(p, key)
    ensures var r, q := PairAt([x] + p + [","] + rest, key), PairAt([y] + p + [","] + other, key);
            r.Some? && q.Some? && r.value[0] == q.value[0]
    decreases |p|
  {
    var r, q := [x] + p + [","] + rest, [y] + p + [","] + other;
    assert r[1..] == [p[0]] + p[1..] + [","] + rest && q[1..] == [p[0]] + p[1..] + [","] + other;
    if p[0] == key && p[1] == ":" {
      assert r[3..][0] == q[3..][0] == if |p| > 2 then p[2] else ",";
    } else {
      InValueAlone(p[0], p[0], p[1..], rest, other, key);
    }
  }

  // ---- Objects with string fields ----

  datatype Field = Field(key: string, value: string)

  /** The pieces of  "k1":"v1","k2":"v2",  followed by `tail`. */
  function Pieces(fields: seq<Field>, tail: seq<string>): (p: seq<string>)
    requires PlainKeys(fields) && AllQuoteFree(tail)
    ensures AllQuoteFree(p) && |p| >= |tail|
  {
    if fields == [] then tail
    else [fields[0].key, ":"] + Split(fields[0].value) + [","] + Pieces(fields[1..], tail)
  }

  predicate PlainKeys(fields: seq<Field>) {
    forall i | 0 <= i < |fields| :: IsKey(fields[i].key)
  }

  /** The fields that a search for a key passes. */
  predicate Passed(f: Field, key: string) {
    f.key != key && !Spells(f.value, key)
  }

  lemma FieldPieces(pre: string, fields: seq<Field>, tail: seq<string>)
    requires PlainKeys(fields) && AllQuoteFree(tail) && fields != []
    ensures var p := [pre] + Pieces(fields, tail);
            && p[1..] == [fields[0].key, ":"] + Split(fields[0].value) + [","] + Pieces(fields[1..], tail)
            && p[2..] == [":"] + Split(fields[0].value) + [","] + Pieces(fields[1..], tail)
            && p[3..] == Split(fields[0].value) + [","] + Pieces(fields[1..], tail)
  {
    hide Split;
  }

  /** The search passes every field of another key that does not spell it, and stops at the
      value of the first field with that key. */
  lemma {:induction false} FindsField(pre: string, fields: seq<Field>, tail: seq<string>, j: nat)
    requires PlainKeys(fields) && AllQuoteFree(tail) && j < |fields|
    requires forall i | 0 <= i < j :: Passed(fields[i], fields[j].key)
    ensures PairAt([pre] + Pieces(fields, tail), fields[j].key)
            == Some(Split(fields[j].value) + [","] + Pieces(fields[j + 1..], tail))
    decreases j
  {
    hide Split, Spells;
    FieldPieces(pre, fields, tail);
    if j > 0 {
      PastField(pre, fields, tail, fields[j].key);
      FindsField(",", fields[1..], tail, j - 1);
      assert fields[1..][j..] == fields[j + 1..];
    }
  }

  lemma PastField(pre: string, fields: seq<Field>, tail: seq<string>, key: string)
    requires PlainKeys(fields) && AllQuoteFree(tail) && fields != [] && IsKey(key)
    requires Passed(fields[0], key)
    ensures PairAt([pre] + Pieces(fields, tail), key) == PairAt([","] + Pieces(fields[1..], tail), key)
  {
    hide Split, Pieces, Spells;
    FieldPieces(pre, fields, tail);
    SpellsPair(fields[0].value, key);
    PastValue(":", Split(fields[0].value), Pieces(fields[1..], tail), key);
    var p := [pre] + Pieces(fields, tail);
    assert p[1..][1..] == p[2..];
  }

  /** The pieces of a value with its quotes and comma, up to the quote behind it. */
  function AlonePieces(value: string): (p: seq<string>)
    ensures p != [] && AllQuoteFree(p)
  {
    [""] + Split(value) + [","] + [""]
  }

  /** A field of another key that spells it misleads the search: what is found depends on that
      value alone. */
  lemma {:induction false} StopsInField(pre: string, fields: seq<Field>, tail: seq<string>, j: nat, key: string)
    requires PlainKeys(fields) && AllQuoteFree(tail) && j < |fields| && IsKey(key)
    requires forall i | 0 <= i < j :: Passed(fields[i], key)
    requires fields[j].key != key && Spells(fields[j].value, key)
    ensures var r := PairAt([pre] + Pieces(fields, tail), key);
            && r.Some? && (r.value[0] == "," || |r.value[0]| <= |fields[j].value|)
            && PairAt(AlonePieces(fields[j].value), key).Some?
            && r.value[0] == PairAt(AlonePieces(fields[j].value), key).value[0]
    decreases j
  {
    hide Split, Pieces, Spells;
    FieldPieces(pre, fields, tail);
    if j > 0 {
      PastField(pre, fields, tail, key);
      StopsInField(",", fields[1..], tail, j - 1, key);
    } else {
      var v, q := Split(fields[0].value), Pieces(fields[1..], tail);
      SpellsPair(fields[0].value, key);
      InValue(":", v, q, key);
      InValueAlone(":", "", v, q, [""], key);
      var p := [pre] + Pieces(fields, tail);
      assert p[1..][1..] == p[2..];
      var r := PairAt(p, key);
      assert r == PairAt(p[1..], key) == PairAt(p[2..], key);
      JoinedSplit(fields[0].value);
      if r.value[0] != "," {
        var i :| 0 <= i < |v| && v[i] == r.value[0];
        PieceLength(v, i);
      }
    }
  }
}
