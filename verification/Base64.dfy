/** base64_encode (src/main.c) against a decoder written from section 4 of RFC 4648. */
module Base64 {
  import opened Wrappers

  const UPPER := "ABCDEFGHIJKLMNOPQRSTUVWXYZ"
  const LOWER := "abcdefghijklmnopqrstuvwxyz"
  const OTHER := "0123456789+/"
  const TABLE := UPPER + LOWER + OTHER
  const PAD := '='

  type Sextet = x: bv8 | x < 64

  // ---- The decoder of RFC 4648 ----

  /** Table 1: the value of a letter of the alphabet. */
  function LetterValue(c: char): Option<Sextet> {
    if 'A' <= c <= 'Z' then Some((c - 'A') as int as bv8)
    else if 'a' <= c <= 'z' then Some(((c - 'a') as int + 26) as bv8)
    else if '0' <= c <= '9' then Some(((c - '0') as int + 52) as bv8)
    else if c == '+' then Some(62)
    else if c == '/' then Some(63)
    else None
  }

  /** Four 6-bit values concatenated into a 24-bit group. */
  function Group(s0: Sextet, s1: Sextet, s2: Sextet, s3: Sextet): bv24 {
    (s0 as bv24 << 18) | (s1 as bv24 << 12) | (s2 as bv24 << 6) | s3 as bv24
  }

  function ByteOf(group: bv24, shift: bv24): bv8
    requires shift <= 16
  {
    ((group >> shift) & 0xFF) as bv8
  }

  /** A quantum of four characters; padding is allowed in the last one only. */
  function DecodeQuantum(q: string, last: bool): Option<seq<bv8>>
    requires |q| == 4
  {
    match (LetterValue(q[0]), LetterValue(q[1]), LetterValue(q[2]), LetterValue(q[3]))
    case (Some(a), Some(b), Some(c), Some(d)) =>
      var g := Group(a, b, c, d);
      Some([ByteOf(g, 16), ByteOf(g, 8), ByteOf(g, 0)])
    case (Some(a), Some(b), Some(c), None) =>
      if last && q[3] == PAD then
        var g := Group(a, b, c, 0);
        Some([ByteOf(g, 16), ByteOf(g, 8)])
      else None
    case (Some(a), Some(b), None, None) =>
      if last && q[2] == PAD && q[3] == PAD then Some([ByteOf(Group(a, b, 0, 0), 16)]) else None
    case _ => None
  }

  function Decode(s: string): Option<seq<bv8>> {
    if s == "" then Some([])
    else if |s| < 4 then None
    else
      match (DecodeQuantum(s[..4], |s| == 4), Decode(s[4..]))
      case (Some(head), Some(tail)) => Some(head + tail)
      case _ => None
  }

  // ---- The encoder ----

  function TableAt(x: Sextet): (c: char) {
    TABLE[x as int]
  }

  // The four table indices for the bytes a, b and c.

  function First(a: bv8): Sextet {
    a >> 2
  }

  function Second(a: bv8, b: bv8): Sextet {
    ((a & 0x03) << 4) | (b >> 4)
  }

  function Third(b: bv8, c: bv8): Sextet {
    ((b & 0x0F) << 2) | (c >> 6)
  }

  function Fourth(c: bv8): Sextet {
    c & 0x3F
  }

  /** The four characters for up to three bytes; absent bytes count as zero. */
  function Quantum(bytes: seq<bv8>): string
    requires 1 <= |bytes|
  {
    var a := bytes[0];
    var b := if |bytes| > 1 then bytes[1] else 0;
    var c := if |bytes| > 2 then bytes[2] else 0;
    [TableAt(First(a)),
     TableAt(Second(a, b)),
     if |bytes| > 1 then TableAt(Third(b, c)) else PAD,
     if |bytes| > 2 then TableAt(Fourth(c)) else PAD]
  }

  function Encode(bytes: seq<bv8>): string {
    if bytes == [] then ""
    else if |bytes| <= 3 then Quantum(bytes)
    else Quantum(bytes[..3]) + Encode(bytes[3..])
  }

  lemma TableInverse(x: Sextet)
    ensures LetterValue(TableAt(x)) == Some(x)
  {
    hide TABLE;
    var i := x as int;
    TableIsAlphabet(i);
    RoundNumber(x);
    var c := TABLE[i];
    if i < 26 {
      assert (c - 'A') as int == i;
    } else if i < 52 {
      assert (c - 'a') as int + 26 == i;
    } else if i < 62 {
      assert (c - '0') as int + 52 == i;
    }
  }

  lemma RoundNumber(x: Sextet)
    ensures x as int as bv8 == x && x as int < 64
    ensures x as int == 62 ==> x == 62
    ensures x as int == 63 ==> x == 63
  {
  }

  lemma TableIsAlphabet(i: int)
    requires 0 <= i < 64
    ensures |TABLE| == 64
    ensures TABLE[i] == if i < 26 then 'A' + i as char
                        else if i < 52 then 'a' + (i - 26) as char
                        else if i < 62 then '0' + (i - 52) as char
                        else if i == 62 then '+' else '/'
  {
    if i < 26 {
      assert UPPER[i] == 'A' + i as char;
    } else if i < 52 {
      assert LOWER[i - 26] == 'a' + (i - 26) as char;
    } else if i < 62 {
      assert OTHER[i - 52] == '0' + (i - 52) as char;
    }
  }

  /** The encoder's shifts and masks cut the same 24 bits into sextets that the decoder joins. */
  lemma Regroups(a: bv8, b: bv8, c: bv8)
    ensures Group(First(a), Second(a, b), Third(b, c), Fourth(c))
            == (a as bv24 << 16) | (b as bv24 << 8) | c as bv24
    ensures ByteOf((a as bv24 << 16) | (b as bv24 << 8) | c as bv24, 16) == a
    ensures ByteOf((a as bv24 << 16) | (b as bv24 << 8) | c as bv24, 8) == b
    ensures ByteOf((a as bv24 << 16) | (b as bv24 << 8) | c as bv24, 0) == c
    ensures Third(0, 0) == 0 && Fourth(0) == 0
  {
  }

  lemma PadIsNoLetter()
    ensures LetterValue(PAD) == None
  {
  }

  lemma QuantumDecodes(bytes: seq<bv8>, last: bool)
    requires 1 <= |bytes| <= 3 && (|bytes| < 3 ==> last)
    ensures DecodeQuantum(Quantum(bytes), last) == Some(bytes)
  {
    hide TableAt, LetterValue, Group, ByteOf, First, Second, Third, Fourth;
    var a := bytes[0];
    var b := if |bytes| > 1 then bytes[1] else 0;
    var c := if |bytes| > 2 then bytes[2] else 0;
    Regroups(a, b, c);
    TableInverse(First(a));
    TableInverse(Second(a, b));
    TableInverse(Third(b, c));
    TableInverse(Fourth(c));
    PadIsNoLetter();
    assert bytes == if |bytes| == 1 then [a] else if |bytes| == 2 then [a, b] else [a, b, c];
  }

  /** Decoding what was encoded gives the bytes back, for every byte sequence. */
  lemma {:induction false} DecodeInvertsEncode(bytes: seq<bv8>)
    ensures Decode(Encode(bytes)) == Some(bytes)
    decreases |bytes|
  {
    hide Quantum, DecodeQuantum;
    var s := Encode(bytes);
    if bytes != [] {
      if |bytes| <= 3 {
        QuantumDecodes(bytes, true);
        QuantumLength(bytes);
        assert s[..4] == s && s[4..] == "" && bytes + [] == bytes;
      } else {
        QuantumDecodes(bytes[..3], |s| == 4);
        QuantumLength(bytes[..3]);
        DecodeInvertsEncode(bytes[3..]);
        assert s[..4] == Quantum(bytes[..3]) && s[4..] == Encode(bytes[3..]);
        assert bytes[..3] + bytes[3..] == bytes;
      }
    }
  }

  predicate InAlphabet(c: char) {
    LetterValue(c).Some?
  }

  lemma QuantumLength(bytes: seq<bv8>)
    requires 1 <= |bytes| <= 3
    ensures |Quantum(bytes)| == 4
    ensures forall i | 0 <= i <= |bytes| :: InAlphabet(Quantum(bytes)[i])
    ensures forall i | |bytes| < i < 4 :: Quantum(bytes)[i] == PAD
  {
    hide TableAt, LetterValue, First, Second, Third, Fourth;
    var a := bytes[0];
    var b := if |bytes| > 1 then bytes[1] else 0;
    var c := if |bytes| > 2 then bytes[2] else 0;
    TableInverse(First(a));
    TableInverse(Second(a, b));
    TableInverse(Third(b, c));
    TableInverse(Fourth(c));
  }

  /** Characters written for `n` bytes: four for each three, rounded up. */
  function EncodedLength(n: nat): nat {
    (n + 2) / 3 * 4
  }

  /** Length, alphabet and padding: letters up to the last group, whose missing bytes are the
      only pad characters. */
  lemma {:induction false} EncodeShape(bytes: seq<bv8>)
    ensures var s := Encode(bytes);
            && |s| == EncodedLength(|bytes|)
            && forall i | 0 <= i < |s| :: if i < |s| - (3 - |bytes| % 3) % 3 then InAlphabet(s[i]) else s[i] == '='
    decreases |bytes|
  {
    hide Quantum, InAlphabet;
    if bytes != [] {
      if |bytes| <= 3 {
        QuantumLength(bytes);
      } else {
        QuantumLength(bytes[..3]);
        EncodeShape(bytes[3..]);
        assert (3 - |bytes[3..]| % 3) % 3 == (3 - |bytes| % 3) % 3;
        assert EncodedLength(|bytes|) == 4 + EncodedLength(|bytes[3..]|);
      }
    }
  }

  /** The buffer holds the first `out` characters of s, and behind them what was there before. */
  ghost predicate Partly(now: string, s: string, was: string, out: nat) {
    out <= |s| <= |was| && now == s[..out] + was[out..]
  }

  lemma Starts(input: seq<bv8>, was: string)
    requires |Encode(input)| <= |was|
    ensures Partly(was, Encode(input), was, 0) && (|input| == 0 ==> Encode(input) == "")
  {
  }

  lemma PartlyMore(now: string, s: string, was: string, out: nat)
    requires Partly(now, s, was, out) && out + 4 <= |s|
    ensures |now| == |was|
    ensures Partly(now[..out] + s[out..out + 4] + now[out + 4..], s, was, out + 4)
  {
    assert now[..out] == s[..out] && now[out + 4..] == was[out + 4..];
    assert s[..out] + s[out..out + 4] == s[..out + 4];
  }

  lemma PartlyDone(now: string, s: string, was: string, c: char)
    requires Partly(now, s, was, |s|) && |s| < |was|
    ensures |now| == |was| && now[|s| := c] == s + [c] + was[|s| + 1..]
  {
  }

  /** The encoding loop, into the caller's buffer, with the NUL that ends it. */
  method Base64Encode(input: seq<bv8>, output: array<char>)
    requires EncodedLength(|input|) < output.Length
    modifies output
    ensures |Encode(input)| == EncodedLength(|input|)
    ensures output[..] == Encode(input) + ['\0'] + old(output[..])[EncodedLength(|input|) + 1..]
  {
    hide Quantum, Encode, EncodedLength, Partly;
    ghost var was, s := output[..], Encode(input);
    EncodeShape(input);
    Starts(input, was);
    ghost var g := 0;
    var i, out := 0, 0;
    assert input[0..] == input && s[0..] == s;
    while i < |input|
      invariant i == 3 * g && out == 4 * g <= |s| && (i >= |input| ==> out == |s|)
      invariant i <= |input| ==> s[out..] == Encode(input[i..])
      invariant Partly(output[..], s, was, out)
    {
      LoopStep(input, g, s);
      PartlyMore(output[..], s, was, out);
      PutQuantum(input, i, output, out);
      g, i, out := g + 1, i + 3, out + 4;
    }
    PartlyDone(output[..], s, was, '\0');
    output[out] := '\0';
  }

  /** The body of the loop. */
  method PutQuantum(input: seq<bv8>, i: nat, output: array<char>, out: nat)
    requires i < |input| && out + 4 <= output.Length
    modifies output
    ensures var q := Quantum(input[i..]);
            |q| == 4 && output[..] == old(output[..])[..out] + q + old(output[..])[out + 4..]
  {
    hide TableAt, First, Second, Third, Fourth;
    var a := input[i];
    var b := if i + 1 < |input| then input[i + 1] else 0;
    var c := if i + 2 < |input| then input[i + 2] else 0;
    ghost var q := Quantum(input[i..]);
    output[out] := TableAt(First(a));
    assert output[out] == q[0];
    output[out + 1] := TableAt(Second(a, b));
    assert output[out + 1] == q[1];
    output[out + 2] := if i + 1 < |input| then TableAt(Third(b, c)) else PAD;
    assert output[out + 2] == q[2];
    output[out + 3] := if i + 2 < |input| then TableAt(Fourth(c)) else PAD;
    assert output[out + 3] == q[3];
  }

  /** A quantum looks at no more than three bytes. */
  lemma QuantumPrefix(bytes: seq<bv8>)
    requires |bytes| > 3
    ensures Quantum(bytes[..3]) == Quantum(bytes)
  {
    hide TableAt;
  }

  /** Group number g of the encoding. */
  lemma LoopStep(input: seq<bv8>, g: nat, s: string)
    requires 3 * g < |input| && 4 * g <= |s| == EncodedLength(|input|)
    requires s[4 * g..] == Encode(input[3 * g..])
    ensures 4 * g + 4 <= |s| && s[4 * g..4 * g + 4] == Quantum(input[3 * g..])
    ensures 3 * g + 3 <= |input| ==> s[4 * g + 4..] == Encode(input[3 * g + 3..])
    ensures 3 * g + 3 >= |input| ==> 4 * g + 4 == |s|
  {
    hide Quantum;
    var i, out := 3 * g, 4 * g;
    var rest := input[i..];
    if |rest| > 3 {
      QuantumPrefix(rest);
      QuantumLength(rest[..3]);
      assert rest[3..] == input[i + 3..];
      assert s[out + 4..] == s[out..][4..];
    } else {
      QuantumLength(rest);
      if |rest| == 3 {
        assert input[i + 3..] == [] && s[out + 4..] == "";
      }
    }
    assert s[out..out + 4] == s[out..][..4];
  }
}
