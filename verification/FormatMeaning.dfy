/** What append_fmt (src/string_helpers.c) prints: the rendering of a format, part by part. */
module FormatMeaning {
  import opened Words
  import opened Decimal
  import opened StringHelpers

  /** One part of a format: a character that stands for itself, %%, a percent sign in front of
      any other character, %s with a string or a null pointer, %u or %d with a number. */
  datatype Part = Plain(c: char) | Percents | Lone | Str(s: string) | NullStr | Number(v: U32, letter: char)

  function PartText(p: Part): string {
    match p
    case Plain(c) => [c]
    case Percents => "%%"
    case Lone => "%"
    case Str(_) => "%s"
    case NullStr => "%s"
    case Number(_, letter) => ['%', letter]
  }

  function PartArgs(p: Part): seq<Arg> {
    match p
    case Str(s) => [Text(s)]
    case NullStr => [Null]
    case Number(v, _) => [Num(v)]
    case _ => []
  }

  /** The parts of a format: a lone percent sign is not followed by a character that would make it
      a conversion. */
  predicate Wellformed(parts: seq<Part>) {
    && (forall i | 0 <= i < |parts| ::
          && (parts[i].Plain? ==> parts[i].c != '%')
          && (parts[i].Number? ==> parts[i].letter == 'u' || parts[i].letter == 'd'))
    && forall i | 0 <= i < |parts| - 1 && parts[i].Lone? ::
         parts[i + 1].Plain? && parts[i + 1].c != 's' && parts[i + 1].c != 'u' && parts[i + 1].c != 'd'
  }

  function FormatOf(parts: seq<Part>): string {
    if parts == [] then "" else PartText(parts[0]) + FormatOf(parts[1..])
  }

  function ArgsOf(parts: seq<Part>): seq<Arg> {
    if parts == [] then [] else PartArgs(parts[0]) + ArgsOf(parts[1..])
  }

  /** What a part is to print: the text itself, and for a number its decimal digits without
      leading zeros. */
  predicate Prints(p: Part, out: string) {
    match p
    case Plain(c) => out == [c]
    case Percents => out == "%"
    case Lone => out == "%"
    case Str(s) => out == s
    case NullStr => out == "(null)"
    case Number(v, _) => IsNumeral(out, v)
  }

  predicate IsNumeral(s: string, v: nat) {
    s != "" && AllDigits(s) && Value(s) == v && (|s| > 1 ==> s[0] != '0')
  }

  predicate AllPrint(parts: seq<Part>, outs: seq<string>) {
    |outs| == |parts| && forall i | 0 <= i < |parts| :: Prints(parts[i], outs[i])
  }

  function Concat(outs: seq<string>): string {
    if outs == [] then "" else outs[0] + Concat(outs[1..])
  }

  // ---- Numerals ----

  lemma {:induction false} NumeralIsDigits(s: string, v: nat)
    requires AllDigits(s) && Value(s) == v && (s != "" ==> s[0] != '0')
    ensures s == Digits(v)
  {
    if s != "" {
      var t := s[..|s| - 1];
      NumeralIsDigits(t, Value(t));
      assert v == Value(t) * 10 + DigitValue(s[|s| - 1]);
      LeadingCounts(s);
      assert v / 10 == Value(t) && v % 10 == DigitValue(s[|s| - 1]);
      assert s == t + [s[|s| - 1]];
    }
  }

  lemma {:induction false} LeadingCounts(s: string)
    requires AllDigits(s) && s != "" && s[0] != '0'
    ensures Value(s) > 0
  {
    if |s| > 1 {
      LeadingCounts(s[..|s| - 1]);
    } else {
      assert s[..0] == "";
    }
  }

  /** There is one such numeral for every number. */
  lemma OneNumeral(s: string, v: nat)
    ensures IsNumeral(s, v) <==> s == Show(v)
  {
    if IsNumeral(s, v) {
      if s[0] == '0' {
        assert |s| == 1 && s[..0] == "" && s == "0" && Value("") == 0;
      } else {
        LeadingCounts(s);
        NumeralIsDigits(s, v);
      }
    }
    ShowIsNumeral(v);
  }

  lemma ShowIsNumeral(v: nat)
    ensures IsNumeral(Show(v), v)
  {
    ShowValue(v);
    hide Value;
    if v > 0 {
      DigitsLead(v);
    }
  }

  lemma {:induction false} DigitsLead(n: nat)
    requires n > 0
    ensures Digits(n) != "" && Digits(n)[0] != '0'
  {
    if n >= 10 {
      DigitsLead(n / 10);
    } else {
      assert Digits(n / 10) == "" && Digits(n) == [DigitChar(n)];
    }
  }

  // ---- The rendering ----

  /** The part in front of the rest of a format. */
  predicate Leads(p: Part, rest: string) {
    && (p.Plain? ==> p.c != '%') && (p.Number? ==> p.letter == 'u' || p.letter == 'd')
    && (p.Lone? && rest != "" ==> rest[0] != '%' && rest[0] != 's' && rest[0] != 'u' && rest[0] != 'd')
  }

  lemma PieceOf(p: Part, rest: string, left: seq<Arg>, out: string)
    requires Leads(p, rest) && Prints(p, out) && Matching(rest, left)
    ensures var fmt, args := PartText(p) + rest, PartArgs(p) + left;
            && fmt != "" && Matching(fmt, args)
            && NextPiece(fmt, args) == Piece(out, p.Percents? || p.Lone?, |PartText(p)|, |PartArgs(p)|)
  {
    hide IsNumeral, Show;
    var fmt, args := PartText(p) + rest, PartArgs(p) + left;
    assert fmt[|PartText(p)|..] == rest && args[|PartArgs(p)|..] == left;
    if p.Number? {
      OneNumeral(out, p.v);
    }
  }

  lemma FirstPart(parts: seq<Part>, more: seq<Arg>, out: string)
    requires Wellformed(parts) && parts != [] && Prints(parts[0], out)
    requires Matching(FormatOf(parts[1..]), ArgsOf(parts[1..]) + more)
    ensures var fmt, args, p := FormatOf(parts), ArgsOf(parts) + more, parts[0];
            && fmt != "" && Matching(fmt, args)
            && NextPiece(fmt, args) == Piece(out, p.Percents? || p.Lone?, |PartText(p)|, |PartArgs(p)|)
            && fmt[|PartText(p)|..] == FormatOf(parts[1..]) && args[|PartArgs(p)|..] == ArgsOf(parts[1..]) + more
  {
    var p, rest, left := parts[0], FormatOf(parts[1..]), ArgsOf(parts[1..]) + more;
    assert ArgsOf(parts) + more == PartArgs(p) + left;
    if p.Lone? {
      LoneStays(parts);
    }
    hide Prints, Matching, NextPiece, PartText, PartArgs;
    PieceOf(p, rest, left, out);
  }

  lemma LoneStays(parts: seq<Part>)
    requires Wellformed(parts) && parts != [] && parts[0].Lone?
    ensures Leads(Lone, FormatOf(parts[1..]))
  {
    if |parts| > 1 {
      assert parts[1..][0] == parts[1];
    }
  }

  /** A format and its arguments render to what its parts are to print, in order. */
  lemma {:induction false} RenderMeans(parts: seq<Part>, more: seq<Arg>, outs: seq<string>)
    requires Wellformed(parts) && AllPrint(parts, outs)
    ensures Matching(FormatOf(parts), ArgsOf(parts) + more)
    ensures Render(FormatOf(parts), ArgsOf(parts) + more) == Concat(outs)
    decreases |parts|
  {
    hide Prints, Matching, NextPiece;
    if parts == [] {
      NothingMatches(ArgsOf(parts) + more);
    } else {
      TailIsWellformed(parts);
      RenderMeans(parts[1..], more, outs[1..]);
      FirstPart(parts, more, outs[0]);
    }
  }

  lemma NothingMatches(args: seq<Arg>)
    ensures Matching("", args) && Render("", args) == ""
  {
  }

  lemma TailIsWellformed(parts: seq<Part>)
    requires Wellformed(parts) && parts != []
    ensures Wellformed(parts[1..])
  {
    var rest := parts[1..];
    forall i | 0 <= i < |rest| - 1 && rest[i].Lone?
      ensures rest[i + 1].Plain? && rest[i + 1].c != 's' && rest[i + 1].c != 'u' && rest[i + 1].c != 'd'
    {
      assert rest[i] == parts[i + 1] && rest[i + 1] == parts[i + 2];
    }
  }

  /** The first part of a format. */
  function FrontPart(fmt: string, args: seq<Arg>): Part
    requires fmt != "" && Matching(fmt, args)
  {
    if Takes(fmt, '%') then Percents
    else if Takes(fmt, 's') then if args[0].Text? then Str(args[0].s) else NullStr
    else if TakesNumber(fmt) then Number(args[0].v, fmt[1])
    else if fmt[0] == '%' then Lone
    else Plain(fmt[0])
  }

  lemma FrontOf(fmt: string, args: seq<Arg>)
    requires fmt != "" && Matching(fmt, args)
    ensures var p := FrontPart(fmt, args);
            && PartText(p) <= fmt && PartArgs(p) <= args && |PartText(p)| > 0
            && Matching(fmt[|PartText(p)|..], args[|PartArgs(p)|..])
            && (p.Plain? ==> p.c != '%') && (p.Number? ==> p.letter == 'u' || p.letter == 'd')
            && (p.Lone? ==> !Takes(fmt, '%') && !Takes(fmt, 's') && !TakesNumber(fmt))
  {
  }

  /** Every format that matches its arguments is made of such parts. */
  lemma {:induction false} HasParts(fmt: string, args: seq<Arg>) returns (parts: seq<Part>, more: seq<Arg>)
    requires Matching(fmt, args)
    ensures Wellformed(parts) && FormatOf(parts) == fmt && ArgsOf(parts) + more == args
    decreases |fmt|
  {
    if fmt == "" {
      parts, more := [], args;
    } else {
      hide Matching, Takes, TakesNumber, PartText, PartArgs, Wellformed, FormatOf, ArgsOf;
      var p, fmt', args' := FrontSplits(fmt, args);
      var rest: seq<Part>;
      rest, more := HasParts(fmt', args');
      parts := [p] + rest;
      PartThenRest(p, rest, more);
      FrontIsWellformed(p, rest, fmt);
    }
  }

  lemma FrontSplits(fmt: string, args: seq<Arg>) returns (p: Part, fmt': string, args': seq<Arg>)
    requires fmt != "" && Matching(fmt, args)
    ensures fmt == PartText(p) + fmt' && args == PartArgs(p) + args' && |fmt'| < |fmt| && Matching(fmt', args')
    ensures (p.Plain? ==> p.c != '%') && (p.Number? ==> p.letter == 'u' || p.letter == 'd')
    ensures p.Lone? ==> !Takes(fmt, '%') && !Takes(fmt, 's') && !TakesNumber(fmt)
  {
    p := FrontPart(fmt, args);
    FrontOf(fmt, args);
    hide Matching, FrontPart, Takes, TakesNumber, PartText, PartArgs;
    fmt', args' := fmt[|PartText(p)|..], args[|PartArgs(p)|..];
  }

  lemma PartThenRest(p: Part, rest: seq<Part>, more: seq<Arg>)
    ensures FormatOf([p] + rest) == PartText(p) + FormatOf(rest)
    ensures ArgsOf([p] + rest) + more == PartArgs(p) + (ArgsOf(rest) + more)
  {
    assert ([p] + rest)[1..] == rest;
  }

  lemma FrontIsWellformed(p: Part, rest: seq<Part>, fmt: string)
    requires Wellformed(rest) && fmt == PartText(p) + FormatOf(rest)
    requires p.Plain? ==> p.c != '%'
    requires p.Number? ==> p.letter == 'u' || p.letter == 'd'
    requires p.Lone? ==> !Takes(fmt, '%') && !Takes(fmt, 's') && !TakesNumber(fmt)
    ensures Wellformed([p] + rest)
  {
    var parts := [p] + rest;
    if p.Lone? && rest != [] {
      assert fmt[1] == FormatOf(rest)[0] == PartText(rest[0])[0];
    }
    forall i | 0 <= i < |parts| - 1 && parts[i].Lone?
      ensures parts[i + 1].Plain? && parts[i + 1].c != 's' && parts[i + 1].c != 'u' && parts[i + 1].c != 'd'
    {
      if i > 0 {
        assert parts[i] == rest[i - 1] && parts[i + 1] == rest[i];
      }
    }
  }

  /** Part k is the first that does not fit, and it is a percent sign. */
  predicate OverflowsAt(parts: seq<Part>, outs: seq<string>, room: int, k: nat)
    requires k < |parts| == |outs|
  {
    |Concat(outs[..k])| <= room < |Concat(outs[..k + 1])| && (parts[k].Percents? || parts[k].Lone?)
  }

  /** With space for `room` characters, the first part that does not fit is a percent sign that
      stands for itself: then, and only then, append_fmt leaves the buffer's last byte alone. */
  lemma {:induction false} StopsAtPercentExactly(parts: seq<Part>, more: seq<Arg>, outs: seq<string>, room: nat)
    requires Wellformed(parts) && AllPrint(parts, outs)
    ensures Matching(FormatOf(parts), ArgsOf(parts) + more)
    ensures StopsAtPercent(FormatOf(parts), ArgsOf(parts) + more, room)
            <==> exists k | 0 <= k < |parts| :: OverflowsAt(parts, outs, room, k)
    decreases |parts|
  {
    hide Prints, Matching, NextPiece;
    RenderMeans(parts, more, outs);
    if parts != [] {
      TailIsWellformed(parts);
      RenderMeans(parts[1..], more, outs[1..]);
      FirstPart(parts, more, outs[0]);
      Unfolds(FormatOf(parts), ArgsOf(parts) + more, room);
      FirstOut(outs);
      hide StopsAtPercent, OverflowsAt;
      if |outs[0]| <= room {
        StopsAtPercentExactly(parts[1..], more, outs[1..], room - |outs[0]|);
        LaterOverflow(parts, outs, room, parts[1..], outs[1..], room - |outs[0]|);
      } else {
        EarlyOverflow(parts, outs, room);
      }
    }
  }

  lemma FirstOut(outs: seq<string>)
    requires outs != []
    ensures Concat(outs[..0]) == "" && Concat(outs[..1]) == outs[0]
  {
    assert outs[..1][0] == outs[0] && outs[..1][1..] == [] && outs[0] + "" == outs[0];
  }

  lemma ConcatFirst(outs: seq<string>, k: nat)
    requires k < |outs|
    ensures Concat(outs[..k + 1]) == outs[0] + Concat(outs[1..][..k])
  {
    assert outs[..k + 1][1..] == outs[1..][..k];
  }

  lemma LaterOverflow(parts: seq<Part>, outs: seq<string>, room: nat, rest: seq<Part>, souts: seq<string>, left: nat)
    requires |parts| == |outs| > 0 && |outs[0]| <= room
    requires rest == parts[1..] && souts == outs[1..] && left == room - |outs[0]|
    ensures (exists k | 0 <= k < |parts| :: OverflowsAt(parts, outs, room, k))
            <==> exists k | 0 <= k < |rest| :: OverflowsAt(rest, souts, left, k)
  {
    FirstOut(outs);
    forall k | 0 <= k < |rest| ensures OverflowsAt(rest, souts, left, k) <==> OverflowsAt(parts, outs, room, k + 1) {
      ConcatFirst(outs, k);
      ConcatFirst(outs, k + 1);
    }
    if k :| 0 <= k < |parts| && OverflowsAt(parts, outs, room, k) {
      assert OverflowsAt(rest, souts, left, k - 1);
    }
    if k :| 0 <= k < |rest| && OverflowsAt(rest, souts, left, k) {
      assert OverflowsAt(parts, outs, room, k + 1);
    }
  }

  lemma EarlyOverflow(parts: seq<Part>, outs: seq<string>, room: nat)
    requires |parts| == |outs| > 0 && |outs[0]| > room
    ensures (exists k | 0 <= k < |parts| :: OverflowsAt(parts, outs, room, k)) <==> parts[0].Percents? || parts[0].Lone?
  {
    FirstOut(outs);
    forall k | 0 < k < |parts| ensures !OverflowsAt(parts, outs, room, k) {
      ConcatFirst(outs, k - 1);
    }
    if parts[0].Percents? || parts[0].Lone? {
      assert OverflowsAt(parts, outs, room, 0);
    }
  }
}
