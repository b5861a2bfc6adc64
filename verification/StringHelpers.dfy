/** append_fmt (src/string_helpers.c): bounded formatting as the truncation of an unbounded
    rendering.  A C string is a Dafny string without the NUL that ends it. */
module StringHelpers {
  import opened Words
  import opened Decimal

  /** One variadic argument: a string, a null string pointer, or an unsigned number. */
  datatype Arg = Text(s: string) | Null | Num(v: U32)

  function ArgText(a: Arg): string {
    match a
    case Text(s) => s
    case Null => "(null)"
    case Num(v) => Show(v)
  }

  /** The next piece of the output: its text, whether it is a percent sign that stands for
      itself, and how many format characters and arguments it takes. */
  datatype Piece = Piece(text: string, percent: bool, chars: nat, args: nat)

  predicate Takes(fmt: string, c: char) {
    |fmt| > 1 && fmt[0] == '%' && fmt[1] == c
  }

  predicate TakesNumber(fmt: string) {
    Takes(fmt, 'u') || Takes(fmt, 'd')
  }

  /** The callers' part of the bargain: the arguments match the format. */
  predicate Matching(fmt: string, args: seq<Arg>) {
    fmt == "" ||
    if Takes(fmt, '%') then Matching(fmt[2..], args)
    else if Takes(fmt, 's') then args != [] && !args[0].Num? && Matching(fmt[2..], args[1..])
    else if TakesNumber(fmt) then args != [] && args[0].Num? && Matching(fmt[2..], args[1..])
    else Matching(fmt[1..], args)
  }

  function NextPiece(fmt: string, args: seq<Arg>): (p: Piece)
    requires fmt != "" && Matching(fmt, args)
    ensures 0 < p.chars <= |fmt| && p.args <= |args| && Matching(fmt[p.chars..], args[p.args..])
    ensures p.percent ==> p.text == "%"
  {
    if Takes(fmt, '%') then Piece("%", true, 2, 0)
    else if Takes(fmt, 's') || TakesNumber(fmt) then Piece(ArgText(args[0]), false, 2, 1)
    else if fmt[0] == '%' then Piece("%", true, 1, 0)   // unknown: the next character stays text
    else Piece([fmt[0]], false, 1, 0)
  }

  /** The unbounded rendering. */
  function Render(fmt: string, args: seq<Arg>): string
    requires Matching(fmt, args)
    decreases |fmt|
  {
    if fmt == "" then ""
    else
      var p := NextPiece(fmt, args);
      p.text + Render(fmt[p.chars..], args[p.args..])
  }

  /** With space for `room` characters, it is a percent sign that does not fit. */
  predicate StopsAtPercent(fmt: string, args: seq<Arg>, room: int)
    requires Matching(fmt, args)
    decreases |fmt|
  {
    fmt != "" &&
    var p := NextPiece(fmt, args);
    if |p.text| > room then p.percent
    else StopsAtPercent(fmt[p.chars..], args[p.args..], room - |p.text|)
  }

  /** What writing one piece at `pos` does to the buffer `was`. */
  predicate Written(was: seq<char>, now: seq<char>, dstsize: nat, pos: nat, p: Piece, ok: bool, newPos: nat)
    requires pos < dstsize <= |was|
  {
    WrittenText(was, now, dstsize, pos, p.text, p.percent, ok, newPos)
  }

  predicate WrittenText(was: seq<char>, now: seq<char>, dstsize: nat, pos: nat, text: string, percent: bool,
                        ok: bool, newPos: nat)
    requires pos < dstsize <= |was|
  {
    var room := dstsize - 1 - pos;
    && ok == (|text| <= room)
    && newPos == (if ok then pos + |text| else dstsize - 1)
    && now == if ok then was[..pos] + text + was[newPos..]
              else if percent then was
              else was[..pos] + text[..room] + [NUL] + was[dstsize..]
  }

  /** The blocks for %s and %u: copy it all, or what fits and a NUL. */
  method PutText(dst: array<char>, dstsize: nat, pos: nat, s: string) returns (ok: bool, newPos: nat)
    requires pos < dstsize <= dst.Length
    modifies dst
    ensures WrittenText(old(dst[..]), dst[..], dstsize, pos, s, false, ok, newPos)
  {
    if pos + |s| >= dstsize {
      var rem := dstsize - pos;
      newPos := pos;
      if rem > 1 {
        MemCpy(dst, pos, s, rem - 1);
        newPos := pos + rem - 1;
      }
      if newPos < dstsize {
        dst[newPos] := NUL;
      }
      return false, newPos;
    }
    assert s[..|s|] == s;
    MemCpy(dst, pos, s, |s|);
    return true, pos + |s|;
  }

  method MemCpy(dst: array<char>, at: nat, s: string, n: nat)
    requires n <= |s| && at + n <= dst.Length
    modifies dst
    ensures dst[..] == old(dst[..])[..at] + s[..n] + old(dst[..])[at + n..]
  {
    ghost var was := dst[..];
    var i := 0;
    while i < n
      invariant 0 <= i <= n
      invariant forall j | 0 <= j < dst.Length :: dst[j] == if at <= j < at + i then s[j - at] else was[j]
    {
      dst[at + i] := s[i];
      i := i + 1;
    }
  }

  /** %% and unknown specifiers: a percent sign, with no NUL when it does not fit. */
  method PutPercent(dst: array<char>, dstsize: nat, pos: nat) returns (ok: bool, newPos: nat)
    requires pos < dstsize <= dst.Length
    modifies dst
    ensures WrittenText(old(dst[..]), dst[..], dstsize, pos, "%", true, ok, newPos)
  {
    if pos + 1 >= dstsize {
      return false, pos;
    }
    dst[pos] := '%';
    return true, pos + 1;
  }

  method PutChar(dst: array<char>, dstsize: nat, pos: nat, c: char) returns (ok: bool, newPos: nat)
    requires pos < dstsize <= dst.Length
    modifies dst
    ensures WrittenText(old(dst[..]), dst[..], dstsize, pos, [c], false, ok, newPos)
  {
    if pos + 1 >= dstsize {
      if pos < dstsize {
        dst[pos] := NUL;
      }
      return false, pos;
    }
    dst[pos] := c;
    return true, pos + 1;
  }

  /** A number goes through itoa_new into a 12-byte buffer, which always holds it. */
  method NumberText(v: U32) returns (s: string)
    ensures s == Show(v)
  {
    var numbuf := new char[12];
    ItoaNew(v, numbuf, 12);
    DigitsLength(v, 10);
    assert ItoaText(v, 12) == Show(v);
    ShowHasNoNul(v);
    var len := 0;
    while numbuf[len] != NUL
      invariant 0 <= len <= |Show(v)|
      decreases |Show(v)| - len
    {
      len := len + 1;
    }
    s := numbuf[..len];
  }

  lemma ShowHasNoNul(v: nat)
    ensures forall i | 0 <= i < |Show(v)| :: Show(v)[i] != NUL
  {
  }

  /** Where the format and the buffer stand after `done` has been written. */
  predicate Progress(was: seq<char>, now: seq<char>, dstsize: nat, pos: nat, fmt: string, args: seq<Arg>,
                     done: string, newPos: nat, f: string, a: seq<Arg>)
    requires Matching(fmt, args)
  {
    && pos < dstsize <= |was| && Matching(f, a)
    && newPos == pos + |done| < dstsize
    && Render(fmt, args) == done + Render(f, a)
    && StopsAtPercent(fmt, args, dstsize - 1 - pos) == StopsAtPercent(f, a, dstsize - 1 - newPos)
    && now == was[..pos] + done + was[newPos..]
  }

  lemma Unfolds(fmt: string, args: seq<Arg>, room: int)
    requires Matching(fmt, args) && fmt != ""
    ensures var p := NextPiece(fmt, args);
            && Render(fmt, args) == p.text + Render(fmt[p.chars..], args[p.args..])
            && StopsAtPercent(fmt, args, room)
               == if |p.text| > room then p.percent else StopsAtPercent(fmt[p.chars..], args[p.args..], room - |p.text|)
  {
    hide Matching, NextPiece;
  }

  /** A piece that fits moves the progress on. */
  lemma PieceFits(was: seq<char>, mid: seq<char>, now: seq<char>, dstsize: nat, pos: nat, fmt: string,
                  args: seq<Arg>, done: string, at: nat, f: string, a: seq<Arg>, newPos: nat)
    requires Matching(fmt, args) && Progress(was, mid, dstsize, pos, fmt, args, done, at, f, a) && f != ""
    requires Written(mid, now, dstsize, at, NextPiece(f, a), true, newPos)
    ensures var p := NextPiece(f, a);
            Progress(was, now, dstsize, pos, fmt, args, done + p.text, newPos, f[p.chars..], a[p.args..])
            && newPos < dstsize
  {
    hide Matching, NextPiece, Render, StopsAtPercent;
    Unfolds(f, a, dstsize - 1 - at);
    var p := NextPiece(f, a);
    assert done + (p.text + Render(f[p.chars..], a[p.args..])) == (done + p.text) + Render(f[p.chars..], a[p.args..]);
  }

  lemma ProgressStarts(was: seq<char>, dstsize: nat, pos: nat, fmt: string, args: seq<Arg>)
    requires Matching(fmt, args) && pos < dstsize <= |was|
    ensures Progress(was, was, dstsize, pos, fmt, args, "", pos, fmt, args)
  {
    hide Matching, Render, StopsAtPercent;
    assert "" + Render(fmt, args) == Render(fmt, args);
  }

  lemma ProgressEnds(was: seq<char>, now: seq<char>, dstsize: nat, pos: nat, fmt: string, args: seq<Arg>,
                     done: string, newPos: nat, a: seq<Arg>)
    requires Matching(fmt, args) && Progress(was, now, dstsize, pos, fmt, args, done, newPos, "", a)
    ensures var text := Render(fmt, args);
            && pos < dstsize <= |was| && |text| <= dstsize - 1 - pos && newPos == pos + |text| < |now|
            && now[newPos := NUL] == was[..pos] + text + [NUL] + was[newPos + 1..]
  {
    hide Matching, StopsAtPercent;
    assert done + Render("", a) == done;
  }

  /** The result when the rendering does not fit. */
  predicate Cut(was: seq<char>, now: seq<char>, dstsize: nat, pos: nat, fmt: string, args: seq<Arg>, newPos: nat)
    requires Matching(fmt, args) && pos < dstsize <= |was|
  {
    var text, room := Render(fmt, args), dstsize - 1 - pos;
    && |text| > room && newPos == dstsize - 1 && |now| == |was|
    && now[..newPos] == was[..pos] + text[..room]
    && now[newPos] == (if StopsAtPercent(fmt, args, room) then was[newPos] else NUL)
    && now[newPos + 1..] == was[newPos + 1..]
  }

  lemma PieceCut(was: seq<char>, mid: seq<char>, now: seq<char>, dstsize: nat, pos: nat, fmt: string,
                 args: seq<Arg>, done: string, at: nat, f: string, a: seq<Arg>, newPos: nat)
    requires Matching(fmt, args) && Progress(was, mid, dstsize, pos, fmt, args, done, at, f, a) && f != ""
    requires Written(mid, now, dstsize, at, NextPiece(f, a), false, newPos)
    ensures Cut(was, now, dstsize, pos, fmt, args, newPos) && |Render(fmt, args)| > dstsize - 1 - pos
  {
    hide Matching, NextPiece, Render, StopsAtPercent;
    Unfolds(f, a, dstsize - 1 - at);
    var p := NextPiece(f, a);
    var text := Render(fmt, args);
    assert text[..dstsize - 1 - pos] == done + p.text[..dstsize - 1 - at];
  }

  lemma CountIsNoError(n: nat)
    requires n < 0xFFFF
    ensures Int16(n) != -1
  {
  }

  /** One round of the format loop: the branches on the next characters. */
  method PutNext(dst: array<char>, dstsize: nat, pos: nat, fmt: string, args: seq<Arg>)
    returns (ok: bool, newPos: nat, f: string, a: seq<Arg>)
    requires fmt != "" && Matching(fmt, args) && pos < dstsize <= dst.Length
    modifies dst
    ensures var p := NextPiece(fmt, args);
            Written(old(dst[..]), dst[..], dstsize, pos, p, ok, newPos) && f == fmt[p.chars..] && a == args[p.args..]
  {
    hide WrittenText, Show;
    f, a := fmt, args;
    if f[0] == '%' {
      f := f[1..];
      if f != "" && f[0] == '%' {
        ok, newPos := PutPercent(dst, dstsize, pos);
        f := f[1..];
      } else if f != "" && f[0] == 's' {
        var s := if a[0].Text? then a[0].s else "(null)";
        ok, newPos := PutText(dst, dstsize, pos, s);
        f, a := f[1..], a[1..];
      } else if f != "" && (f[0] == 'u' || f[0] == 'd') {
        var s := NumberText(a[0].v);
        ok, newPos := PutText(dst, dstsize, pos, s);
        f, a := f[1..], a[1..];
      } else {
        ok, newPos := PutPercent(dst, dstsize, pos);
      }
    } else {
      ok, newPos := PutChar(dst, dstsize, pos, f[0]);
      f := f[1..];
    }
  }

  /** Returns -1 on truncation, else the number of characters appended, as a 16-bit int.
      The bytes appended are the rendering, cut so that one byte of the buffer is left; that
      byte becomes NUL unless the cut falls on a percent sign. */
  method AppendFmt(dst: array?<char>, dstsize: U16, pos: nat, fmt: string, args: seq<Arg>)
    returns (r: int, newPos: nat)
    requires Matching(fmt, args) && (dst != null ==> dstsize <= dst.Length)
    modifies dst
    ensures dst == null || pos >= dstsize ==> r == -1 && newPos == pos && (dst != null ==> dst[..] == old(dst[..]))
    ensures dst != null && pos < dstsize ==>
              var text, room, was := Render(fmt, args), dstsize - 1 - pos, old(dst[..]);
              if |text| <= room
              then r == Int16(|text|) != -1 && newPos == pos + |text|
                   && dst[..] == was[..pos] + text + [NUL] + was[newPos + 1..]
              else r == -1 && Cut(was, dst[..], dstsize, pos, fmt, args, newPos)
  {
    newPos := pos;
    if dst == null || dstsize == 0 {
      return -1, newPos;
    }
    if newPos >= dstsize {
      return -1, newPos;
    }
    hide Progress, Matching, Render, StopsAtPercent, NextPiece, Written, Cut, Int16;
    ghost var was, done := dst[..], "";
    var f, a := fmt, args;
    ProgressStarts(was, dstsize, pos, fmt, args);
    while f != ""
      invariant Matching(f, a) && newPos < dstsize
      invariant Progress(was, dst[..], dstsize, pos, fmt, args, done, newPos, f, a)
      decreases |f|
    {
      ghost var piece, mid, at, g, b := NextPiece(f, a), dst[..], newPos, f, a;
      var ok: bool;
      ok, newPos, f, a := PutNext(dst, dstsize, newPos, f, a);
      if !ok {
        PieceCut(was, mid, dst[..], dstsize, pos, fmt, args, done, at, g, b, newPos);
        return -1, newPos;
      }
      PieceFits(was, mid, dst[..], dstsize, pos, fmt, args, done, at, g, b, newPos);
      done := done + piece.text;
    }
    ProgressEnds(was, dst[..], dstsize, pos, fmt, args, done, newPos, a);
    CountIsNoError(newPos - pos);
    dst[newPos] := NUL;
    return Int16(newPos - pos), newPos;
  }
}
