/** Decimal numbers as the program writes and reads them: itoa_new (src/string_helpers.c) and
    parse_number (src/main.c). */
module Decimal {
  import opened Words

  const NUL := '\0'

  /** Two's complement reading of a 16-bit word: cc65's `int`. */
  function Int16(x: int): (i: int)
    ensures -0x8000 <= i < 0x8000
  {
    var w := Wrap16(x);
    if w < 0x8000 then w else w - 0x1_0000
  }

  predicate IsDigit(c: char) {
    '0' <= c <= '9'
  }

  predicate AllDigits(s: string) {
    forall i | 0 <= i < |s| :: IsDigit(s[i])
  }

  function DigitChar(d: int): char
    requires 0 <= d < 10
  {
    '0' + d as char
  }

  function DigitValue(c: char): int
    requires IsDigit(c)
  {
    (c - '0') as int
  }

  /** The decimal digits of a positive number; none for zero. */
  function Digits(n: nat): (s: string)
    ensures AllDigits(s) && (n > 0 ==> s != "")
  {
    if n == 0 then "" else Digits(n / 10) + [DigitChar(n % 10)]
  }

  function Show(n: nat): string {
    if n == 0 then "0" else Digits(n)
  }

  function Value(s: string): (v: nat)
    requires AllDigits(s)
  {
    if s == "" then 0 else Value(s[..|s| - 1]) * 10 + DigitValue(s[|s| - 1])
  }

  function Pow10(k: nat): (p: nat)
    ensures p > 0
  {
    if k == 0 then 1 else 10 * Pow10(k - 1)
  }

  lemma {:induction false} DigitsValue(n: nat)
    ensures Value(Digits(n)) == n
  {
    if n > 0 {
      DigitsValue(n / 10);
      assert Digits(n)[..|Digits(n)| - 1] == Digits(n / 10);
    }
  }

  /** A number below 10^k has at most k digits. */
  lemma {:induction false} DigitsLength(n: nat, k: nat)
    requires n < Pow10(k)
    ensures |Digits(n)| <= k
  {
    if n > 0 {
      DigitsLength(n / 10, k - 1);
    }
  }

  /** The last k digits of a number, when it has that many, are the number modulo 10^k. */
  lemma {:induction false} LastDigits(n: nat, k: nat)
    requires k <= |Digits(n)|
    ensures Value(Digits(n)[|Digits(n)| - k..]) == n % Pow10(k)
  {
    if k > 0 {
      var s := Digits(n);
      var tail := s[|s| - k..];
      LastDigits(n / 10, k - 1);
      assert s[..|s| - 1] == Digits(n / 10);
      assert tail[..k - 1] == Digits(n / 10)[|Digits(n / 10)| - (k - 1)..];
      ModTimesTen(n, Pow10(k - 1));
    }
  }

  lemma ModTimesTen(n: nat, p: nat)
    requires p > 0
    ensures (n / 10) % p * 10 + n % 10 == n % (10 * p)
  {
    var q, r := n / 10 / p, n / 10 % p;
    assert n == q * (10 * p) + (r * 10 + n % 10) by {
      assert n / 10 == q * p + r;
      assert q * (10 * p) == 10 * (q * p);
    }
    assert r * 10 + n % 10 < 10 * p;
    RemainderUnique(n, 10 * p, q, r * 10 + n % 10);
  }

  lemma RemainderUnique(n: nat, m: nat, q: nat, r: nat)
    requires m > 0 && n == q * m + r && r < m
    ensures n % m == r
  {
    var d := n / m - q;
    assert n == (n / m) * m + n % m;
    assert d * m == r - n % m by {
      assert (n / m) * m == d * m + q * m;
    }
    MultipleAway(d, m);
  }

  lemma MultipleAway(d: int, m: int)
    requires m > 0
    ensures (d > 0 ==> d * m >= m) && (d < 0 ==> d * m <= -m)
  {
  }

  // ---- itoa_new ----

  /** What fits a buffer of `bufsz` bytes: the number, or only its last digits. */
  function ItoaText(val: nat, bufsz: nat): (s: string)
    requires bufsz > 0
    ensures |s| < bufsz
  {
    var s := Show(val);
    if |s| < bufsz then s else s[|s| - (bufsz - 1)..]
  }

  /** With enough room the text is the number; without, it is the number modulo 10^(bufsz-1),
      padded with zeros to bufsz-1 digits. */
  lemma ItoaMeans(val: nat, bufsz: nat)
    requires bufsz > 0
    ensures var s := ItoaText(val, bufsz);
            && AllDigits(s)
            && (|Show(val)| < bufsz ==> Value(s) == val)
            && (|Show(val)| >= bufsz ==> |s| == bufsz - 1 && Value(s) == val % Pow10(bufsz - 1))
  {
    ShowValue(val);
    hide Pow10, Digits, Value;
    if |Show(val)| >= bufsz {
      if val > 0 {
        LastDigits(val, bufsz - 1);
      } else {
        NoDigits();
      }
    }
  }

  lemma ShowValue(val: nat)
    ensures Value(Show(val)) == val
  {
    DigitsValue(val);
    assert "0"[..0] == "";
  }

  lemma NoDigits()
    ensures Value("") == 0 && Pow10(0) == 1
  {
  }

  method ItoaNew(val: U32, buf: array<char>, bufsz: nat)
    requires bufsz <= buf.Length
    modifies buf
    ensures bufsz == 0 ==> buf[..] == old(buf[..])
    ensures bufsz > 0 ==> var s := ItoaText(val, bufsz);
                          buf[..] == s + [NUL] + old(buf[..])[|s| + 1..]
  {
    if bufsz == 0 {
      return;
    }
    if val == 0 {
      if bufsz > 1 {
        buf[0] := '0';
        buf[1] := NUL;
      } else if bufsz == 1 {
        buf[0] := NUL;
      }
      return;
    }
    PutDigits(val, buf, bufsz);
  }

  lemma Terminated(text: string, was: string)
    requires |text| < |was|
    ensures (text + was[|text|..])[|text| := NUL] == text + [NUL] + was[|text| + 1..]
  {
  }

  /** A nonzero number: its digits, the last ones if they do not all fit, and the NUL. */
  method PutDigits(val: U32, buf: array<char>, bufsz: nat)
    requires 0 < bufsz <= buf.Length && val > 0
    modifies buf
    ensures var s := ItoaText(val, bufsz);
            buf[..] == s + [NUL] + old(buf[..])[|s| + 1..]
  {
    hide Digits, AllDigits;
    var tmp := new char[12];
    ghost var s, was := Digits(val), buf[..];
    var t := DigitsReversed(val, tmp);
    var start := if t + 1 > bufsz then t + 1 - bufsz else 0;
    CopyReversed(tmp, t, start, buf, s);
    Terminated(s[start..], was);
    buf[t - start] := NUL;
    assert buf[..] == (s[start..] + was[t - start..])[t - start := NUL];
  }

  /** The digit loop; its bound of 11 is never reached. */
  method DigitsReversed(val: U32, tmp: array<char>) returns (t: nat)
    requires val > 0 && tmp.Length == 12
    modifies tmp
    ensures t == |Digits(val)| <= 10
    ensures forall i | 0 <= i < t :: tmp[i] == Digits(val)[t - 1 - i]
  {
    var rest: nat := val;
    t := 0;
    DigitsLength(val, 10);
    ghost var s := Digits(val);
    assert s[..|s|] == s;
    while rest > 0 && t < 11
      invariant t + |Digits(rest)| == |s| <= 10
      invariant forall i | 0 <= i < t :: tmp[i] == s[|s| - 1 - i]
      invariant s[..|s| - t] == Digits(rest)
    {
      tmp[t] := DigitChar(rest % 10);
      t := t + 1;
      rest := rest / 10;
    }
  }

  /** Both reversing loops: the number's digits from `start` on, most significant first. */
  method CopyReversed(tmp: array<char>, t: nat, start: nat, buf: array<char>, ghost s: string)
    requires start <= t == |s| <= tmp.Length && t - start <= buf.Length && tmp != buf
    requires forall i | 0 <= i < t :: tmp[i] == s[t - 1 - i]
    modifies buf
    ensures buf[..] == s[start..] + old(buf[..])[t - start..]
  {
    ghost var was := buf[..];
    var i := start;
    while i < t
      invariant start <= i <= t
      invariant forall j | 0 <= j < t :: tmp[j] == s[t - 1 - j]
      invariant forall j | 0 <= j < i - start :: buf[j] == s[start + j]
      invariant forall j | i - start <= j < buf.Length :: buf[j] == was[j]
    {
      buf[i - start] := tmp[t - 1 - i];
      i := i + 1;
    }
  }

  // ---- parse_number ----

  /** The leading digits of a string. */
  function Leading(s: string): (d: string)
    ensures AllDigits(d)
  {
    if s != "" && IsDigit(s[0]) then [s[0]] + Leading(s[1..]) else ""
  }

  lemma Int16Ignores(x: int, k: int)
    ensures Int16(x) == Int16(k * 0x1_0000 + x)
  {
  }

  lemma ParseWraps(v: int, d: int)
    ensures Int16(Int16(v) * 10 + d) == Int16(v * 10 + d)
  {
    var q := v / 0x1_0000;
    assert v * 10 + d == q * 10 * 0x1_0000 + (Wrap16(v) * 10 + d);
    Int16Ignores(Wrap16(v) * 10 + d, q * 10);
    Int16Ignores(Int16(v) * 10 + d, if Wrap16(v) < 0x8000 then 0 else 10);
  }

  lemma ParseStarts()
    ensures Int16(Value("")) == 0
  {
  }

  method ParseNumber(str: string) returns (result: int)
    ensures result == Int16(Value(Leading(str)))
  {
    hide Int16;
    ParseStarts();
    result := 0;
    var i := 0;
    ghost var read := "";
    assert str[0..] == str;
    while i < |str| && IsDigit(str[i])
      invariant 0 <= i <= |str| && AllDigits(read)
      invariant Leading(str) == read + Leading(str[i..])
      invariant result == Int16(Value(read))
    {
      assert str[i..][1..] == str[i + 1..];
      assert (read + [str[i]])[..|read|] == read;
      ParseWraps(Value(read), DigitValue(str[i]));
      result := Int16(result * 10 + DigitValue(str[i]));
      read := read + [str[i]];
      i := i + 1;
    }
    assert read + "" == read;
  }

  lemma {:induction false} LeadingOf(d: string, rest: string)
    requires AllDigits(d) && (rest == "" || !IsDigit(rest[0]))
    ensures Leading(d + rest) == d
  {
    if d == "" {
      assert d + rest == rest;
    } else {
      assert (d + rest)[1..] == d[1..] + rest;
      LeadingOf(d[1..], rest);
    }
  }

  lemma SmallIsItself(n: nat)
    ensures n < 0x8000 ==> Int16(n) == n
  {
  }

  /** Reading back a written number: the number itself when it fits an `int`, and in general its
      16-bit two's complement reading. */
  lemma ParseInvertsItoa(n: nat, rest: string)
    requires rest == "" || !IsDigit(rest[0])
    ensures Int16(Value(Leading(Show(n) + rest))) == Int16(n)
    ensures n < 0x8000 ==> Int16(Value(Leading(Show(n) + rest))) == n
  {
    hide Int16, Leading, Value, Digits;
    LeadingOf(Show(n), rest);
    ShowValue(n);
    SmallIsItself(n);
  }
}
