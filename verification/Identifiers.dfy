/** Message identifiers: generate_guid, their printing as eight hexadecimal digits and their
    extraction from a received payload (src/main.c). */
module Identifiers {
  import opened Words
  import opened Search
  import opened Decimal
  import opened Wrappers

  datatype Guid = Guid(high: U16, low: U16)

  // ---- Printing ----

  function HexChar(d: int): char
    requires 0 <= d < 16
  {
    if d < 10 then '0' + d as char else 'A' + (d - 10) as char
  }

  /** `digits` hexadecimal digits of w. */
  function Hex(w: nat, digits: nat): (s: string)
    ensures |s| == digits
  {
    if digits == 0 then "" else Hex(w / 16, digits - 1) + [HexChar(w % 16)]
  }

  function Print(g: Guid): (s: string)
    ensures |s| == 8
  {
    Hex(g.high, 4) + Hex(g.low, 4)
  }

  /** The nibbles by shift and mask, from the top one down. */
  lemma FourNibbles(w: U16)
    ensures Hex(w, 4) == [HexChar(w / 4096 % 16), HexChar(w / 256 % 16), HexChar(w / 16 % 16), HexChar(w % 16)]
  {
    assert w / 16 / 16 == w / 256 && w / 256 / 16 == w / 4096;
    assert Hex(w / 4096, 1) == [HexChar(w / 4096 % 16)] by {
      assert Hex(w / 65536, 0) == "";
    }
    assert Hex(w / 256, 2) == Hex(w / 4096, 1) + [HexChar(w / 256 % 16)];
    assert Hex(w / 16, 3) == Hex(w / 256, 2) + [HexChar(w / 16 % 16)];
  }

  lemma {:induction false} HexIsPlain(w: nat, digits: nat)
    ensures QuoteFree(Hex(w, digits)) && NUL !in Hex(w, digits)
  {
    if digits > 0 {
      HexIsPlain(w / 16, digits - 1);
    }
  }

  // ---- Reading back ----

  /** A digit's value; any other character leaves the shifted-in nibble zero. */
  function HexValue(c: char): (v: int)
    ensures 0 <= v < 16
  {
    if '0' <= c <= '9' then (c - '0') as int
    else if 'A' <= c <= 'F' then (c - 'A') as int + 10
    else if 'a' <= c <= 'f' then (c - 'a') as int + 10
    else 0
  }

  /** The shift-and-or loop on a 16-bit word; after the shift the low nibble is clear. */
  function Parse(s: string): U16 {
    if s == "" then 0
    else
      var w := Parse(s[..|s| - 1]);
      ShiftClears(w);
      Wrap16(w * 16) + HexValue(s[|s| - 1])
  }

  lemma ShiftClears(w: U16)
    ensures Wrap16(w * 16) == 16 * (w % 0x1000)
  {
    var q := w / 0x1000;
    assert w * 16 == q * 0x1_0000 + 16 * (w % 0x1000);
  }

  function Pow16(k: nat): (p: nat)
    ensures p > 0
  {
    if k == 0 then 1 else 16 * Pow16(k - 1)
  }

  lemma {:induction false} ParseInvertsHex(w: nat, digits: nat)
    requires w < Pow16(digits) && w < 0x1_0000
    ensures Parse(Hex(w, digits)) == w
  {
    if digits > 0 {
      ParseInvertsHex(w / 16, digits - 1);
      assert Hex(w, digits)[..digits - 1] == Hex(w / 16, digits - 1);
    }
  }

  /** Parsing the two printed halves gives the identifier back, for all 32-bit identifiers. */
  lemma ParseInvertsPrint(g: Guid)
    ensures Guid(Parse(Print(g)[..4]), Parse(Print(g)[4..])) == g
  {
    assert Pow16(4) == 0x1_0000;
    ParseInvertsHex(g.high, 4);
    ParseInvertsHex(g.low, 4);
    assert Print(g)[..4] == Hex(g.high, 4) && Print(g)[4..] == Hex(g.low, 4);
  }

  // ---- Generating ----

  /** The identifier for a counter value. */
  function FromCounter(counter: U32): Guid {
    Guid(counter / 0x1_0000, counter % 0x1_0000)
  }

  /** The i-th identifier (from 1) generated when the counter stood at `start`. */
  function Generated(start: U32, i: nat): Guid {
    FromCounter(Wrap32(start + i))
  }

  /** Any 2^32 identifiers in a row are distinct, wherever the counter started, and the next one
      repeats the first. */
  lemma GeneratedDistinct(start: U32, i: nat, j: nat)
    requires i < j
    ensures j - i < 0x1_0000_0000 ==> Generated(start, i) != Generated(start, j)
    ensures j - i == 0x1_0000_0000 ==> Generated(start, i) == Generated(start, j)
  {
    hide Wrap32, FromCounter;
    WrapsApart(start + i, start + j);
    Unpacks(Wrap32(start + i));
    Unpacks(Wrap32(start + j));
  }

  lemma Unpacks(counter: U32)
    ensures FromCounter(counter).high * 0x1_0000 + FromCounter(counter).low == counter
  {
  }

  lemma WrapsApart(a: nat, b: nat)
    requires a < b
    ensures b - a < 0x1_0000_0000 ==> Wrap32(a) != Wrap32(b)
    ensures b - a == 0x1_0000_0000 ==> Wrap32(a) == Wrap32(b)
  {
    var p, q := a / 0x1_0000_0000, b / 0x1_0000_0000;
    assert a == p * 0x1_0000_0000 + Wrap32(a) && b == q * 0x1_0000_0000 + Wrap32(b);
  }

  // ---- Extraction from a payload ----

  /** The C string at the start of a buffer: up to its first NUL. */
  function CString(s: string): string {
    if s == "" || s[0] == NUL then "" else [s[0]] + CString(s[1..])
  }

  function FromBrace(s: string): string {
    if s == "" || s[0] == '{' then s else FromBrace(s[1..])
  }

  function SkipSpaces(s: string): string {
    if s != "" && s[0] == ' ' then SkipSpaces(s[1..]) else s
  }

  function SkipOne(s: string, c: char): string {
    if s != "" && s[0] == c then s[1..] else s
  }

  /** At most `limit` characters, up to a quote. */
  function Taken(s: string, limit: nat): string {
    if s == "" || s[0] == '"' || limit == 0 then "" else [s[0]] + Taken(s[1..], limit - 1)
  }

  const GUID_NEEDLE := "\"Guid\""

  function Value8(s: string): Option<Guid> {
    if |s| == 8 then Some(Guid(Parse(s[..4]), Parse(s[4..]))) else None
  }

  /** The identifier the consumer reads out of a payload, if it finds one. */
  function Extracted(payload: string): Option<Guid> {
    match After(CString(FromBrace(payload)), GUID_NEEDLE)
    case None => None
    case Some(r) => Value8(Taken(SkipOne(SkipSpaces(SkipOne(SkipSpaces(r), ':')), '"'), 8))
  }

  lemma {:induction false} TakenOf(v: string, rest: string, limit: nat)
    requires QuoteFree(v)
    ensures Taken(v + "\"" + rest, limit) == if |v| <= limit then v else v[..limit]
  {
    if v != "" && limit > 0 {
      assert (v + "\"" + rest)[1..] == v[1..] + "\"" + rest;
      TakenOf(v[1..], rest, limit - 1);
    }
  }

  lemma {:induction false} TakenWhole(v: string, limit: nat)
    requires QuoteFree(v)
    ensures Taken(v, limit) == if |v| <= limit then v else v[..limit]
  {
    if v != "" && limit > 0 {
      TakenWhole(v[1..], limit - 1);
    }
  }

  lemma {:induction false} TakenFull(v: string, rest: string)
    requires QuoteFree(v)
    ensures Taken(v + rest, |v|) == v
  {
    if v != "" {
      assert (v + rest)[1..] == v[1..] + rest;
      TakenFull(v[1..], rest);
    }
  }

  lemma {:induction false} FromBraceSkips(noise: string, rest: string)
    requires '{' !in noise && rest != "" && rest[0] == '{'
    ensures FromBrace(noise + rest) == rest
  {
    if noise == "" {
      assert noise + rest == rest;
    } else {
      assert (noise + rest)[1..] == noise[1..] + rest;
      FromBraceSkips(noise[1..], rest);
    }
  }

  lemma {:induction false} CStringKeeps(s: string, rest: string)
    requires NUL !in s
    ensures CString(s + rest) == s + CString(rest)
  {
    if s == "" {
      assert s + rest == rest;
    } else {
      assert (s + rest)[1..] == s[1..] + rest;
      CStringKeeps(s[1..], rest);
    }
  }

  // ---- The loops ----

  method FindBrace(payload: string) returns (start: nat)
    ensures start <= |payload| && payload[start..] == FromBrace(payload)
  {
    start := 0;
    while start < |payload| && payload[start] != '{'
      invariant start <= |payload| && FromBrace(payload[start..]) == FromBrace(payload)
    {
      assert payload[start..][1..] == payload[start + 1..];
      start := start + 1;
    }
  }

  method SkipSpacesAt(s: string, from: nat) returns (at: nat)
    requires from <= |s|
    ensures from <= at <= |s| && s[at..] == SkipSpaces(s[from..])
  {
    at := from;
    while at < |s| && s[at] == ' '
      invariant from <= at <= |s| && SkipSpaces(s[at..]) == SkipSpaces(s[from..])
    {
      assert s[at..][1..] == s[at + 1..];
      at := at + 1;
    }
  }

  /** The copy loops of the parsers: up to a quote or the end, at most `limit`. */
  method TakeAt(s: string, from: nat, limit: nat) returns (field: string)
    requires from <= |s|
    ensures field == Taken(s[from..], limit)
  {
    field := "";
    var p := from;
    while p < |s| && s[p] != '"' && |field| < limit
      invariant from <= p <= |s| && |field| <= limit
      invariant field + Taken(s[p..], limit - |field|) == Taken(s[from..], limit)
    {
      assert s[p..][1..] == s[p + 1..];
      ghost var more := Taken(s[p + 1..], limit - |field| - 1);
      assert field + [s[p]] + more == field + ([s[p]] + more);
      field := field + [s[p]];
      p := p + 1;
    }
  }

  lemma ParseSnoc(s: string, c: char)
    ensures Parse(s + [c]) == Wrap16(Parse(s) * 16) + HexValue(c)
  {
    assert (s + [c])[..|s|] == s;
  }

  lemma ParseNothing()
    ensures Parse("") == 0
  {
  }

  method ParseWord(s: string) returns (w: U16)
    ensures w == Parse(s)
  {
    hide Parse, Wrap16;
    ParseNothing();
    w := 0;
    var k := 0;
    while k < |s|
      invariant 0 <= k <= |s| && w == Parse(s[..k])
    {
      ParseSnoc(s[..k], s[k]);
      assert s[..k + 1] == s[..k] + [s[k]];
      w := Wrap16(w * 16);
      if '0' <= s[k] <= '9' {
        w := w + (s[k] - '0') as int;
      } else if 'A' <= s[k] <= 'F' {
        w := w + ((s[k] - 'A') as int + 10);
      } else if 'a' <= s[k] <= 'f' {
        w := w + ((s[k] - 'a') as int + 10);
      }
      k := k + 1;
    }
    assert s[..k] == s;
  }

  /** Past optional spaces, a colon, spaces and a quote. */
  method SkipToValue(s: string, from: nat) returns (p: nat)
    requires from <= |s|
    ensures p <= |s| && s[p..] == SkipOne(SkipSpaces(SkipOne(SkipSpaces(s[from..]), ':')), '"')
  {
    hide SkipSpaces;
    p := SkipSpacesAt(s, from);
    if p < |s| && s[p] == ':' {
      assert s[p..][1..] == s[p + 1..];
      p := p + 1;
    }
    p := SkipSpacesAt(s, p);
    if p < |s| && s[p] == '"' {
      assert s[p..][1..] == s[p + 1..];
      p := p + 1;
    }
  }

  /** The consumer's extraction. */
  method Extract(payload: string) returns (g: Option<Guid>)
    ensures g == Extracted(payload)
  {
    hide Parse, Taken, FromBrace, SkipSpaces, SkipOne, CString;
    var start := FindBrace(payload);
    var s := CString(payload[start..]);
    var k := MyStrstr(s, GUID_NEEDLE);
    if k < 0 {
      return None;
    }
    var p := SkipToValue(s, k + |GUID_NEEDLE|);
    var hex := TakeAt(s, p, 8);
    if |hex| == 8 {
      var high := ParseWord(hex[..4]);
      var low := ParseWord(hex[4..]);
      return Some(Guid(high, low));
    }
    return None;
  }
}
