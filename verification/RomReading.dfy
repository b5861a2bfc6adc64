/** What the reader of tools/rp6502.py accepts and what it refuses, line by line. */
module RomReading {
  import opened Words
  import opened RomImage
  import opened RomFormat
  import opened RomRoundTrip
  import Decimal

  // ---- Data blocks ----

  function Body(bytes: seq<Byte>, rest: File): (f: File)
    ensures |f| == |bytes| + |rest| && f[..|bytes|] == AsText(bytes) && f[|bytes|..] == rest
  {
    AsText(bytes) + rest
  }

  /** A block's line, its bytes and what follows. */
  function BlockFile(addr: nat, length: nat, sum: nat, bytes: seq<Byte>, rest: File): (f: File) {
    HeaderText(addr, length, sum) + "\n" + Body(bytes, rest)
  }

  /** The range is inside the ROM, does not cross the bank, and holds no data yet. */
  predicate Fits(img: Image, addr: int, length: int) {
    && 0 <= addr && 0 <= length && addr + length <= 0x2_0000 && !(addr < 0x1_0000 < addr + length)
    && forall i | addr <= i < addr + length :: !img.alloc[i]
  }

  /** The image with these bytes loaded there. */
  predicate Loaded(img: Image, next: Image, addr: nat, bytes: seq<Byte>) {
    && next.help == img.help
    && forall i | 0 <= i < ROM_SIZE ::
         if addr <= i < addr + |bytes| then next.alloc[i] && next.data[i] == bytes[i - addr]
         else next.alloc[i] == img.alloc[i] && next.data[i] == img.data[i]
  }

  lemma FitsIsAllocated(img: Image, addr: int, length: int)
    requires 0 <= addr && 0 <= length
    ensures Fits(img, addr, length) <==> Allocate(img.alloc, addr, length).Ok?
    ensures Fits(img, addr, length) ==> AllocLeaves(img.alloc, addr, length) == Mark(img.alloc, addr, addr + length)
  {
    hide Mark;
  }

  /** The line loop comes to the block: the numbers of its line are those written. */
  lemma BlockIsRead(img: Image, addr: nat, length: nat, sum: nat, bytes: seq<Byte>, rest: File, crc: Crc)
    ensures var text := BlockFile(addr, length, sum, bytes, rest);
            var placed := PlaceBlock(img, addr, length, sum, Body(bytes, rest), crc);
            && ReadLines(img, text, crc)
               == (match placed case Ok((next, more)) => ReadLines(next, more, crc) case Err(e) => Err(e))
            && LinesLeave(img, text, crc)
               == (match placed
                   case Ok((next, more)) => LinesLeave(next, more, crc)
                   case Err(_) => img.(alloc := AllocLeaves(img.alloc, addr, length)))
  {
    var h := HeaderText(addr, length, sum);
    var line := BlockLine("$" + Hex(addr, 4), "$" + Hex(length, 3), "$" + Hex(sum, 8));
    var body := Body(bytes, rest);
    HeaderReadsBack(addr, length, sum, body);
    LineIsPlaced(img, addr, length, sum, body, crc);
    hide AddBlock, BlockLeaves, PlaceBlock, Classify, RStrip, LineLength, HeaderText, Body, AsText, Hex;
    hide AllocLeaves, ReadLines, LinesLeave, IsAscii;
    LinesAtBlock(img, h, body, line, crc);
  }

  lemma LinesAtBlock(img: Image, h: string, body: File, line: Line, crc: Crc)
    requires line.BlockLine? && IsAscii(h) && Classify(h) == line
    requires LineLength(h + "\n" + body) == |h| + 1 && RStrip(h + "\n") == h != ""
    ensures var text: File := h + "\n" + body;
            && ReadLines(img, text, crc)
               == (match AddBlock(img, line, body, crc)
                   case Ok((next, more)) => ReadLines(next, more, crc)
                   case Err(e) => Err(e))
            && LinesLeave(img, text, crc)
               == (match AddBlock(img, line, body, crc)
                   case Ok((next, more)) => LinesLeave(next, more, crc)
                   case Err(_) => BlockLeaves(img, line, body, crc))
  {
    var text: File := h + "\n" + body;
    hide AddBlock, Classify, RStrip, LineLength;
    assert text[..|h| + 1] == h + "\n" && text[|h| + 1..] == body;
    assert IsAscii(h + "\n");
    BlockLeavesNext(img, line, body, crc);
    hide BlockLeaves, IsAscii;
  }

  lemma BlockLeavesNext(img: Image, line: Line, body: File, crc: Crc)
    requires line.BlockLine?
    ensures AddBlock(img, line, body, crc).Ok? ==>
              BlockLeaves(img, line, body, crc) == AddBlock(img, line, body, crc).value.0
  {
    hide AddBlock;
  }

  lemma LineIsPlaced(img: Image, addr: nat, length: nat, sum: nat, body: File, crc: Crc)
    ensures var line := BlockLine("$" + Hex(addr, 4), "$" + Hex(length, 3), "$" + Hex(sum, 8));
            var placed := PlaceBlock(img, addr, length, sum, body, crc);
            && AddBlock(img, line, body, crc) == placed
            && BlockLeaves(img, line, body, crc)
               == (match placed
                   case Ok((next, _)) => next
                   case Err(_) => img.(alloc := AllocLeaves(img.alloc, addr, length)))
  {
    HexAddress(addr, 4);
    HexAddress(length, 3);
    HexAddress(sum, 8);
    hide PlaceBlock, ToAddress, Hex, AllocLeaves;
  }

  /** A block whose bytes are all there is loaded, and reading goes on behind it, if and only if
      its line names the bytes' checksum; with any other number the file is refused and no byte
      has been stored. */
  lemma BlockIsChecked(img: Image, addr: nat, sum: nat, bytes: seq<Byte>, rest: File, crc: Crc) returns (next: Image)
    requires Fits(img, addr, |bytes|)
    ensures Loaded(img, next, addr, bytes)
    ensures var text := BlockFile(addr, |bytes|, sum, bytes, rest);
            if sum == crc(bytes)
            then ReadLines(img, text, crc) == ReadLines(next, rest, crc)
                 && LinesLeave(img, text, crc) == LinesLeave(next, rest, crc)
            else ReadLines(img, text, crc) == Err(RuntimeError)
                 && LinesLeave(img, text, crc) == Image(img.help, img.data, next.alloc)
  {
    next := Image(img.help, Store(img.data, addr, bytes), Mark(img.alloc, addr, addr + |bytes|));
    BlockIsRead(img, addr, |bytes|, sum, bytes, rest, crc);
    PlacedIsChecked(img, addr, sum, bytes, rest, crc);
    FitsIsAllocated(img, addr, |bytes|);
    StoreLoads(img, addr, bytes);
    hide ReadLines, LinesLeave, PlaceBlock, BlockFile, Body, AllocLeaves, Loaded, Store, Mark, Fits;
  }

  lemma StoreLoads(img: Image, addr: nat, bytes: seq<Byte>)
    requires Fits(img, addr, |bytes|)
    ensures var out := Image(img.help, Store(img.data, addr, bytes), Mark(img.alloc, addr, addr + |bytes|));
            Loaded(img, out, addr, bytes)
  {
  }

  lemma PlacedIsChecked(img: Image, addr: nat, sum: nat, bytes: seq<Byte>, rest: File, crc: Crc)
    requires Fits(img, addr, |bytes|)
    ensures PlaceBlock(img, addr, |bytes|, sum, Body(bytes, rest), crc)
            == if sum == crc(bytes)
               then Ok((Image(img.help, Store(img.data, addr, bytes), Mark(img.alloc, addr, addr + |bytes|)), rest))
               else Err(RuntimeError)
  {
    FitsIsAllocated(img, addr, |bytes|);
    BytesReadBack(bytes);
    hide Body, AsText, AsBytes, Store, Mark, Fits;
  }

  /** A file that ends inside the block is refused, whatever its line says, and nothing is stored. */
  lemma TruncatedBlock(img: Image, addr: nat, length: nat, sum: nat, bytes: seq<Byte>, crc: Crc)
    requires Fits(img, addr, length) && |bytes| < length
    ensures var text := BlockFile(addr, length, sum, bytes, "");
            && ReadLines(img, text, crc) == Err(RuntimeError)
            && LinesLeave(img, text, crc).data == img.data && LinesLeave(img, text, crc).help == img.help
  {
    BlockIsRead(img, addr, length, sum, bytes, "", crc);
    FitsIsAllocated(img, addr, length);
    hide ReadLines, LinesLeave, Body, AsText, AsBytes, Store, Mark, AllocLeaves, BlockFile, Fits;
  }

  /** A range outside the ROM or across the banks is refused as an index, one that holds data
      already as a clash; nothing is stored. */
  lemma MisplacedBlock(img: Image, addr: nat, length: nat, sum: nat, bytes: seq<Byte>, rest: File, crc: Crc)
    requires !Fits(img, addr, length)
    ensures var text := BlockFile(addr, length, sum, bytes, rest);
            && ReadLines(img, text, crc)
               == Err(if addr + length > 0x2_0000 || addr < 0x1_0000 < addr + length then IndexError else MemoryError)
            && LinesLeave(img, text, crc).data == img.data && LinesLeave(img, text, crc).help == img.help
  {
    BlockIsRead(img, addr, length, sum, bytes, rest, crc);
    MisplacedIsRefused(img.alloc, addr, length);
    FitsIsAllocated(img, addr, length);
    hide ReadLines, LinesLeave, Body, AsBytes, Store, Mark, AllocLeaves, BlockFile, Fits, Allocate;
  }

  lemma MisplacedIsRefused(alloc: Marks, addr: nat, length: nat)
    ensures Allocate(alloc, addr, length).Err? ==>
              Allocate(alloc, addr, length)
              == Err(if addr + length > 0x2_0000 || addr < 0x1_0000 < addr + length then IndexError else MemoryError)
  {
  }

  // ---- The first line ----

  /** "#!RP6502" in either case of R and P, and a line end. */
  predicate StartsRight(file: File) {
    && |file| >= 9 && file[..2] == "#!" && (file[2] == 'R' || file[2] == 'r') && (file[3] == 'P' || file[3] == 'p')
    && file[4..8] == "6502" && (file[8] == '\n' || (|file| >= 10 && file[8] == '\r' && file[9] == '\n'))
  }

  /** Any other file is refused and changes nothing. */
  lemma FirstLineDecides(img: Image, file: File, crc: Crc)
    ensures !StartsRight(file) ==> ReadFile(img, file, crc) == Err(RuntimeError) && FileLeaves(img, file, crc) == img
    ensures StartsRight(file) ==>
              var rest := file[if file[8] == '\n' then 9 else 10..];
              && ReadFile(img, file, crc) == ReadLines(img, rest, crc)
              && FileLeaves(img, file, crc) == LinesLeave(img, rest, crc)
  {
    hide ReadLines, LinesLeave;
    if StartsRight(file) {
      var k := if file[8] == '\n' then 8 else 9;
      RightIsMagic(file, k);
      assert file == file[..k] + "\n" + file[k + 1..];
      LineEnds(file[..k], file[k + 1..]);
    } else if IsMagic(file[..LineLength(file)]) {
      MagicIsRight(file, LineLength(file));
    }
  }

  lemma RightIsMagic(file: File, k: nat)
    requires StartsRight(file) && k == (if file[8] == '\n' then 8 else 9)
    ensures IsMagic(file[..k + 1]) && '\n' !in file[..k]
  {

    var head := ['#', '!', file[2], file[3], '6', '5', '0', '2'];
    assert file[0] == file[..2][0] && file[1] == file[..2][1];
    assert file[4] == file[4..8][0] && file[5] == file[4..8][1] && file[6] == file[4..8][2] && file[7] == file[4..8][3];
    assert file[..8] == head;
    assert head == if file[2] == 'R' then if file[3] == 'P' then "#!RP6502" else "#!Rp6502"
                   else if file[3] == 'P' then "#!rP6502" else "#!rp6502";
    assert file[..k + 1] == if k == 8 then head + "\n" else head + "\r\n";
    assert file[..k] == if k == 8 then head else head + "\r";
    HeadIsMagic(head);
  }

  lemma HeadIsMagic(head: string)
    requires head in {"#!RP6502", "#!Rp6502", "#!rP6502", "#!rp6502"}
    ensures IsMagic(head + "\n") && IsMagic(head + "\r\n") && '\n' !in head
  {
    assert "#!RP6502" + "\n" == "#!RP6502\n" && "#!RP6502" + "\r\n" == "#!RP6502\r\n";
    assert "#!Rp6502" + "\n" == "#!Rp6502\n" && "#!Rp6502" + "\r\n" == "#!Rp6502\r\n";
    assert "#!rP6502" + "\n" == "#!rP6502\n" && "#!rP6502" + "\r\n" == "#!rP6502\r\n";
    assert "#!rp6502" + "\n" == "#!rp6502\n" && "#!rp6502" + "\r\n" == "#!rp6502\r\n";
  }

  lemma MagicIsRight(file: File, n: nat)
    requires n <= |file| && IsMagic(file[..n])
    ensures StartsRight(file)
  {
    MagicShape(file[..n]);
    assert file[..2] == file[..n][..2] && file[4..8] == file[..n][4..8];
    hide IsMagic;
  }

  lemma MagicShape(line: string)
    requires IsMagic(line)
    ensures (|line| == 9 && line[8] == '\n') || (|line| == 10 && line[8] == '\r' && line[9] == '\n')
    ensures line[..2] == "#!" && line[4..8] == "6502"
    ensures (line[2] == 'R' || line[2] == 'r') && (line[3] == 'P' || line[3] == 'p')
  {
    assert |line| >= 9 && line[0] == '#' && line[1] == '!';
    assert line[4] == '6' && line[5] == '5' && line[6] == '0' && line[7] == '2';
    hide IsMagic;
    assert line[..2] == [line[0], line[1]] && line[4..8] == [line[4], line[5], line[6], line[7]];
  }

  // ---- Lines of text ----

  /** A line with a byte that is no ASCII character is refused. */
  lemma NotAscii(img: Image, a: File, c: char, b: File, crc: Crc)
    requires '\n' !in a && 128 as char <= c < 256 as char
    ensures var text: File := a + [c] + b;
            ReadLines(img, text, crc) == Err(ValueError) && LinesLeave(img, text, crc) == img
  {
    var text: File := a + [c] + b;
    LineGoesOn(a, [c] + b);
    assert text == a + ([c] + b) && text[..LineLength(text)][|a|] == c;
  }

  lemma {:induction false} LineGoesOn(a: string, rest: string)
    requires '\n' !in a && rest != ""
    ensures LineLength(a + rest) > |a|
  {
    if a == "" {
      assert a + rest == rest;
    } else {
      assert (a + rest)[1..] == a[1..] + rest;
      LineGoesOn(a[1..], rest);
    }
  }

  /** The ASCII characters other than the newline for which Python's str.isspace is true. */
  predicate IsWhite(c: char) {
    (9 <= c as int <= 13 && c != '\n') || 28 <= c as int <= 32
  }

  predicate White(s: string) {
    forall i | 0 <= i < |s| :: IsWhite(s[i])
  }

  lemma {:induction false} WhiteStrips(s: string)
    requires White(s)
    ensures RStrip(s) == "" && IsAscii(s) && '\n' !in s
  {
    if s != "" {
      WhiteStrips(s[..|s| - 1]);
    }
  }

  /** A blank line, or the end of the file, ends the reading; what follows is not looked at. */
  lemma BlankLineEnds(img: Image, blank: string, rest: File, crc: Crc)
    requires White(blank)
    ensures forall i | 0 <= i < |blank| :: blank[i] < 256 as char
    ensures ReadLines(img, blank + "\n" + rest, crc) == Ok(img) && LinesLeave(img, blank + "\n" + rest, crc) == img
    ensures ReadLines(img, blank, crc) == Ok(img) && LinesLeave(img, blank, crc) == img
  {
    var text: File := blank + "\n" + rest;
    WhiteStrips(blank);
    assert (blank + "\n")[..|blank|] == blank && RStrip(blank + "\n") == RStrip(blank);
    LineEnds(blank, rest);
    assert text[..|blank| + 1] == blank + "\n";
    hide RStrip, Classify;
    LineIsAll(blank);
    assert blank[..|blank|] == blank;
  }

  lemma {:induction false} LineIsAll(s: string)
    requires '\n' !in s
    ensures LineLength(s) == |s|
  {
    if s != "" {
      LineIsAll(s[1..]);
    }
  }

  predicate Blanks(s: string) {
    forall i | 0 <= i < |s| :: s[i] == ' '
  }

  lemma {:induction false} LStripSkips(b: string, s: string)
    requires Blanks(b) && (s == "" || s[0] != ' ')
    ensures LStrip(b + s) == s
  {
    if b == "" {
      assert b + s == s;
    } else {
      assert (b + s)[1..] == b[1..] + s;
      LStripSkips(b[1..], s);
    }
  }

  /** What a line is, once its end has been stripped: a help line is a number sign and a blank, or a
      number sign alone, behind any blanks. */
  lemma HelpExactly(command: string)
    ensures Classify(command).HelpLine?
            <==> exists b: nat | b < |command| ::
                   Blanks(command[..b]) && ("# " <= command[b..] || command[b..] == "#")
    ensures forall b: nat | b < |command| && Blanks(command[..b]) ::
              && ("# " <= command[b..] ==> Classify(command) == HelpLine(command[b + 2..]))
              && (command[b..] == "#" ==> Classify(command) == HelpLine(""))
  {
    hide ThreeGroups, Split;
    var t := LStrip(command);
    LStripIsSuffix(command);
    LStripIsBlank(command);
    var k: nat := |command| - |t|;
    assert k < |command| || t == "";
    forall b: nat | b < |command| && Blanks(command[..b]) && command[b] != ' ' ensures t == command[b..] {
      LStripSkips(command[..b], command[b..]);
      assert command == command[..b] + command[b..];
    }
  }

  lemma {:induction false} LStripIsBlank(s: string)
    ensures Blanks(s[..|s| - |LStrip(s)|])
  {
    if s != "" && s[0] == ' ' {
      LStripIsBlank(s[1..]);
      var n := |s| - |LStrip(s)|;
      forall i | 0 <= i < n ensures s[i] == ' ' {
        assert i > 0 ==> s[i] == s[1..][..n - 1][i - 1];
      }
    }
  }

  lemma WhiteIsSpace(c: char)
    ensures IsSpace(c) <==> IsWhite(c) || c == '\n'
  {
  }

  lemma {:induction false} StripsWhite(s: string, white: string)
    requires White(white) && (s == "" || !IsSpace(s[|s| - 1]))
    ensures RStrip(s + white) == s
    decreases |white|
  {
    hide IsSpace, IsWhite;
    if white == "" {
      assert s + white == s;
    } else {
      WhiteIsSpace(white[|white| - 1]);
      var n := |white| - 1;
      assert (s + white)[..|s| + n] == s + white[..n];
      StripsWhite(s, white[..n]);
    }
  }

  /** A help line of at most 80 characters is added while there are fewer than 24, and reading goes
      on; the 25th is refused but stays in the list, a longer line is refused and left out. */
  lemma HelpIsRead(img: Image, blanks: string, t: string, white: string, rest: File, crc: Crc)
    requires Blanks(blanks) && White(white) && IsAscii(t) && '\n' !in t && (t == "" || !IsWhite(t[|t| - 1]))
    ensures forall i | 0 <= i < |blanks + "# " + t + white + "\n" + rest| ::
              (blanks + "# " + t + white + "\n" + rest)[i] < 256 as char
    ensures var text: File := blanks + "# " + t + white + "\n" + rest;
            var more := img.(help := img.help + [t]);
            if |t| > 80 then ReadLines(img, text, crc) == Err(RuntimeError) && LinesLeave(img, text, crc) == img
            else if |img.help| >= 24 then
              ReadLines(img, text, crc) == Err(RuntimeError) && LinesLeave(img, text, crc) == more
            else ReadLines(img, text, crc) == ReadLines(more, rest, crc)
                 && LinesLeave(img, text, crc) == LinesLeave(more, rest, crc)
  {
    var line := blanks + "# " + t + white;
    HelpLineShape(blanks, t, white);
    HelpStrips(blanks, t, white);
    HelpClassifies(blanks, t);
    hide RStrip, Classify, LineLength, ReadLines, LinesLeave, IsAscii, IsWhite, White, Blanks;
    LinesAtHelp(img, line, rest, t, crc);
  }

  lemma HelpClassifies(blanks: string, t: string)
    requires Blanks(blanks)
    ensures Classify(if t == "" then blanks + "#" else blanks + "# " + t) == HelpLine(t)
  {
    var command := if t == "" then blanks + "#" else blanks + "# " + t;
    HelpExactly(command);
    hide Classify, Blanks;
    assert command[..|blanks|] == blanks;
    if t == "" {
      assert command[|blanks|..] == "#";
    } else {
      assert command[|blanks|..] == "# " + t && command[|blanks| + 2..] == t;
    }
  }

  lemma HelpLineShape(blanks: string, t: string, white: string)
    requires Blanks(blanks) && White(white) && IsAscii(t) && '\n' !in t
    ensures IsAscii(blanks + "# " + t + white) && '\n' !in blanks + "# " + t + white
  {
  }

  lemma LinesAtHelp(img: Image, line: string, rest: File, t: string, crc: Crc)
    requires IsAscii(line) && '\n' !in line && RStrip(line + "\n") != "" && Classify(RStrip(line + "\n")) == HelpLine(t)
    ensures var text: File := line + "\n" + rest;
            var more := img.(help := img.help + [t]);
            if |t| > 80 then ReadLines(img, text, crc) == Err(RuntimeError) && LinesLeave(img, text, crc) == img
            else if |img.help| >= 24 then
              ReadLines(img, text, crc) == Err(RuntimeError) && LinesLeave(img, text, crc) == more
            else ReadLines(img, text, crc) == ReadLines(more, rest, crc)
                 && LinesLeave(img, text, crc) == LinesLeave(more, rest, crc)
  {
    var text: File := line + "\n" + rest;
    LineEnds(line, rest);
    assert text[..|line| + 1] == line + "\n" && text[|line| + 1..] == rest;
    assert IsAscii(line + "\n");
    hide RStrip, Classify, LineLength, IsAscii;
  }

  lemma StripsNewline(line: string)
    ensures RStrip(line + "\n") == RStrip(line)
  {
    assert (line + "\n")[..|line|] == line;
  }

  lemma HelpStrips(blanks: string, t: string, white: string)
    requires White(white) && (t == "" || (!IsWhite(t[|t| - 1]) && t[|t| - 1] != '\n'))
    ensures RStrip(blanks + "# " + t + white + "\n") == if t == "" then blanks + "#" else blanks + "# " + t
  {
    hide RStrip, IsSpace, IsWhite;
    StripsNewline(blanks + "# " + t + white);
    if t == "" {
      EmptyHelpStrips(blanks, white);
      assert blanks + "# " + t + white == blanks + "# " + white;
    } else {
      var s := blanks + "# " + t;
      assert s[|s| - 1] == t[|t| - 1];
      WhiteIsSpace(t[|t| - 1]);
      StripsWhite(s, white);
    }
  }

  lemma EmptyHelpStrips(blanks: string, white: string)
    requires White(white)
    ensures RStrip(blanks + "# " + white) == blanks + "#"
  {
    hide RStrip;
    var s, w := blanks + "#", " " + white;
    assert s + w == blanks + "# " + white;
    assert s[|s| - 1] == '#';
    assert White(w) by {
      forall i | 0 <= i < |w| ensures IsWhite(w[i]) {
        if i > 0 {
          assert w[i] == white[i - 1];
        }
      }
    }
    StripsWhite(s, w);
  }

  // ---- The three fields of a block line ----

  predicate Word(s: string) {
    s != "" && ' ' !in s
  }

  /** The text is three words, with any number of blanks, none included, around and between them. */
  ghost predicate IsTriple(s: string, a: string, l: string, c: string) {
    Word(a) && Word(l) && Word(c)
    && exists b0: nat, b1: nat, b2: nat, b3: nat :: Spaced(s, a, l, c, b0, b1, b2, b3)
  }

  predicate Spaced(s: string, a: string, l: string, c: string, b0: nat, b1: nat, b2: nat, b3: nat) {
    s == Pad(b0) + (a + (Pad(b1) + (l + (Pad(b2) + (c + Pad(b3))))))
  }

  function Pad(n: nat): (s: string)
    ensures |s| == n && Blanks(s)
  {
    seq(n, _ => ' ')
  }

  /** What is in front of the rest: blanks and a piece of the first word. */
  lemma GroupTakes(b: nat, g: string, rest: string)
    requires Word(g)
    ensures var w, r := Split(Pad(b) + (g + rest)), Split(rest);
            && w != [] && |g| <= |w[0]| && g == w[0][..|g|]
            && r == if |g| == |w[0]| then w[1..] else [w[0][|g|..]] + w[1..]
  {
    hide Split;
    LStripSkips(Pad(b), g + rest);
    SplitUnfolds(Pad(b) + (g + rest));
    WordRun(g, rest);
    var t := g + rest;
    var n := WordLength(t);
    assert t[..n][..|g|] == g && t[|g|..] == rest;
    if n > |g| {
      SplitUnfolds(rest);
      assert rest[..n - |g|] == t[..n][|g|..] && rest[n - |g|..] == t[n..];
    }
    assert n == |g| ==> t[n..] == rest;
  }

  lemma SplitUnfolds(s: string)
    ensures var t := LStrip(s); Split(s) == if t == "" then [] else [t[..WordLength(t)]] + Split(t[WordLength(t)..])
  {
  }

  lemma {:induction false} WordRun(g: string, rest: string)
    requires Word(g)
    ensures WordLength(g + rest) == |g| + WordLength(rest)
    ensures WordLength(rest) > 0 ==> LStrip(rest) == rest
  {
    assert g == [g[0]] + g[1..] && (g + rest)[1..] == g[1..] + rest;
    if g[1..] != "" {
      WordRun(g[1..], rest);
    } else {
      assert g[1..] + rest == rest;
    }
  }

  lemma {:induction false} PadIsNothing(n: nat)
    ensures Split(Pad(n)) == []
  {
    LStripSkips(Pad(n), "");
    assert Pad(n) + "" == Pad(n);
  }

  /** The words of the text, and the rest of it behind the first. */
  lemma FirstWord(s: string) returns (b: nat, rest: string)
    requires Split(s) != []
    ensures s == Pad(b) + (Split(s)[0] + rest) && Word(Split(s)[0]) && Split(rest) == Split(s)[1..]
  {
    var t := LStrip(s);
    LStripIsSuffix(s);
    LStripIsBlank(s);
    b, rest := |s| - |t|, t[WordLength(t)..];
    assert s[..b] == Pad(b) && s == s[..b] + t && t == t[..WordLength(t)] + rest;
    WordIsWord(t);
  }

  lemma {:induction false} WordIsWord(t: string)
    ensures ' ' !in t[..WordLength(t)]
  {
    if t != "" && t[0] != ' ' {
      WordIsWord(t[1..]);
      assert t[..WordLength(t)] == [t[0]] + t[1..][..WordLength(t[1..])];
    }
  }

  lemma NoWords(s: string)
    requires Split(s) == []
    ensures s == Pad(|s|)
  {
    LStripIsBlank(s);
    assert LStrip(s) == "" && s[..|s|] == s;
  }

  /** The pattern's three groups are found exactly when there are any, and they are those with the
      longest first, and then the longest second, word. */
  lemma GroupsAreGreedy(s: string)
    ensures match ThreeGroups(Split(s))
            case Some((a, l, c)) =>
              IsTriple(s, a, l, c)
              && forall x, y, z :: IsTriple(s, x, y, z) ==> |x| < |a| || (|x| == |a| && |y| <= |l|)
            case None => forall x, y, z :: !IsTriple(s, x, y, z)
  {
    hide Split, IsTriple;
    var g := ThreeGroups(Split(s));
    if g.Some? {
      GroupsAreTriple(s);
    }
    forall x, y, z | IsTriple(s, x, y, z)
      ensures g.Some? && (|x| < |g.value.0| || (|x| == |g.value.0| && |y| <= |g.value.1|))
    {
      TripleWords(s, x, y, z);
    }
  }

  lemma TripleWords(s: string, x: string, y: string, z: string)
    requires IsTriple(s, x, y, z)
    ensures match ThreeGroups(Split(s))
            case Some((a, l, c)) => |x| < |a| || (|x| == |a| && |y| <= |l|)
            case None => false
  {
    hide Split, Pad;
    var b0: nat, b1: nat, b2: nat, b3: nat :| Spaced(s, x, y, z, b0, b1, b2, b3);
    var s3 := Pad(b3);
    var s2 := Pad(b2) + (z + s3);
    var s1 := Pad(b1) + (y + s2);
    GroupTakes(b0, x, s1);
    GroupTakes(b1, y, s2);
    GroupTakes(b2, z, s3);
    PadIsNothing(b3);
  }

  lemma GroupsAreTriple(s: string)
    requires ThreeGroups(Split(s)).Some?
    ensures var (a, l, c) := ThreeGroups(Split(s)).value; IsTriple(s, a, l, c)
  {
    hide Split, Pad;
    var w := Split(s);
    var b0, r0 := FirstWord(s);
    if |w| == 1 {
      NoWords(r0);
      var v, n := w[0], |w[0]|;
      assert Pad(0) == "";
      assert v + r0 == v[..n - 2] + ("" + (v[n - 2..n - 1] + ("" + (v[n - 1..] + r0))));
      assert Spaced(s, v[..n - 2], v[n - 2..n - 1], v[n - 1..], b0, 0, 0, |r0|);
    } else {
      var b1, r1 := FirstWord(r0);
      assert w[1..][0] == w[1] && w[1..][1..] == w[2..];
      if |w| == 2 {
        NoWords(r1);
        assert Pad(0) == "";
        if |w[1]| > 1 {
          var v, n := w[1], |w[1]|;
          assert v + r1 == v[..n - 1] + ("" + (v[n - 1..] + r1));
          assert Spaced(s, w[0], v[..n - 1], v[n - 1..], b0, b1, 0, |r1|);
        } else {
          var v, n := w[0], |w[0]|;
          assert v + (Pad(b1) + (w[1] + r1)) == v[..n - 1] + ("" + (v[n - 1..] + (Pad(b1) + (w[1] + r1))));
          assert Spaced(s, v[..n - 1], v[n - 1..], w[1], b0, 0, b1, |r1|);
        }
      } else {
        var b2, r2 := FirstWord(r1);
        assert w[2..][0] == w[2] && w[2..][1..] == w[3..];
        NoWords(r2);
        assert Spaced(s, w[0], w[1], w[2], b0, b1, b2, |r2|);
      }
    }
  }

  /** A line that is neither help nor three words is refused. */
  lemma OtherLinesAreRefused(img: Image, line: string, rest: File, crc: Crc)
    requires IsAscii(line) && '\n' !in line && line != "" && !IsWhite(line[|line| - 1])
    requires forall b: nat | b < |line| && Blanks(line[..b]) :: !("# " <= line[b..]) && line[b..] != "#"
    requires forall x, y, z :: !IsTriple(line, x, y, z)
    ensures forall i | 0 <= i < |line + "\n" + rest| :: (line + "\n" + rest)[i] < 256 as char
    ensures ReadLines(img, line + "\n" + rest, crc) == Err(RuntimeError)
    ensures LinesLeave(img, line + "\n" + rest, crc) == img
  {
    var text: File := line + "\n" + rest;
    LineEnds(line, rest);
    assert text[..|line| + 1] == line + "\n";
    StripsNewline(line);
    WhiteIsSpace(line[|line| - 1]);
    assert RStrip(line) == line by {
      hide IsSpace, IsWhite, IsTriple, Blanks, IsAscii;
    }
    ClassifiesAsBad(line);
    assert IsAscii(line + "\n");
    hide IsTriple, Classify, RStrip, LineLength, Blanks, IsSpace, IsWhite, IsAscii;
  }

  lemma ClassifiesAsBad(line: string)
    requires line != ""
    requires forall b: nat | b < |line| && Blanks(line[..b]) :: !("# " <= line[b..]) && line[b..] != "#"
    requires forall x, y, z :: !IsTriple(line, x, y, z)
    ensures Classify(line).BadLine?
  {
    HelpExactly(line);
    GroupsAreGreedy(line);
    hide IsTriple, Blanks, Split, ThreeGroups, LStrip;
  }

  // ---- Numbers ----

  lemma {:induction false} DecimalReads(n: nat)
    ensures var s := Decimal.Digits(n); AllIn(s, '9') && AllHex(s) && Number(s, 10) == n && (n > 0 ==> s[0] != '0')
  {
    if n > 0 {
      DecimalReads(n / 10);
      var s := Decimal.Digits(n);
      assert s[..|s| - 1] == Decimal.Digits(n / 10);
    }
  }

  /** How a number may be written: with a dollar sign or 0x, in hexadecimal digits; in decimal
      digits without leading zeros, or zeros only; in binary behind 0b. */
  lemma NumbersRead(n: nat, width: nat)
    ensures ToAddress("$" + Hex(n, width)) == Ok(n) && ToAddress("0x" + Hex(n, width)) == Ok(n)
    ensures ToAddress(Decimal.Show(n)) == Ok(n)
    ensures n > 0 ==> ToAddress("0" + Decimal.Show(n)) == Err(ValueError)
    ensures ToAddress("") == ToAddress("$") == ToAddress("0x") == Err(ValueError)
    ensures ToAddress("00") == Ok(0) && ToAddress("0b101") == Ok(5)
    ensures ToAddress("0b") == ToAddress("0b2") == Err(ValueError)
  {
    HexAddress(n, width);
    HexReadsBack(n, width);
    assert ("0x" + Hex(n, width))[2..] == Hex(n, width);
    ShownReads(n);
    OddNumbers();
    hide ToAddress, Hex, Decimal.Show;
  }

  lemma ShownReads(n: nat)
    ensures ToAddress(Decimal.Show(n)) == Ok(n)
    ensures n > 0 ==> ToAddress("0" + Decimal.Show(n)) == Err(ValueError)
  {
    DecimalReads(n);
    hide Decimal.Digits, Number;
    if n > 0 {
      var s := Decimal.Digits(n);
      var t := "0" + s;
      assert t[1] == s[0] && t[1..] == s && "0x"[1] == 'x';
      forall i | 0 <= i < |t| ensures '0' <= t[i] <= '9' {
      }
    } else {
      SingleZero();
    }
  }

  lemma SingleZero()
    ensures Number("0", 10) == 0
  {
    assert "0"[..0] == "" && Number("", 10) == 0;
  }

  lemma OddNumbers()
    ensures ToAddress("") == ToAddress("$") == ToAddress("0x") == Err(ValueError)
    ensures ToAddress("00") == Ok(0) && ToAddress("0b101") == Ok(5)
    ensures ToAddress("0b") == ToAddress("0b2") == Err(ValueError)
  {
    EmptyNumbers();
    ZeroZero();
    BinaryFive();
    NoBinary();
    hide ToAddress;
  }

  lemma EmptyNumbers()
    ensures ToAddress("") == ToAddress("$") == ToAddress("0x") == Err(ValueError)
  {
    assert "$"[1..] == "" && "0x" + "" == "0x" && "0x"[2..] == "";
    hide Number;
  }

  lemma NoBinary()
    ensures ToAddress("0b") == ToAddress("0b2") == Err(ValueError)
  {
    assert "0b2"[2..] == "2" && "2"[0] == '2' && "0b"[1] == 'b' && "0b2"[1] == 'b';
    hide Number;
  }

  lemma ZeroZero()
    ensures ToAddress("00") == Ok(0)
  {
    assert "00"[..1] == "0" && "0"[..0] == "" && Number("0", 10) == 0 && Number("00", 10) == 0;
    assert "00"[1] == '0' && "0x"[1] == 'x' && !("0x" <= "00");
    assert AllHex("00") && AllIn("00", '0') && AllIn("00", '9') && PythonInt("00") == Ok(0);
  }

  lemma BinaryFive()
    ensures ToAddress("0b101") == ToAddress("0B101") == Ok(5)
  {
    assert "0B101"[2..] == "101" && "0B101"[1] == 'B' && !("0x" <= "0B101");
    assert "0b101"[2..] == "101" && "101"[..2] == "10" && "10"[..1] == "1" && "1"[..0] == "";
    assert Number("1", 2) == 1 && Number("10", 2) == 2 && Number("101", 2) == 5;
    assert "0b101"[1] == 'b' && "0x"[1] == 'x' && !("0x" <= "0b101");
  }

  /** Letters without a prefix are no number; any character but a hexadecimal digit is refused. */
  lemma OtherNumbers(s: string, k: nat)
    requires k < |s|
    ensures HexValue(s[k]) < 0 ==> ToAddress("$" + s) == ToAddress("0x" + s) == Err(RuntimeError)
    ensures HexValue(s[k]) < 0 && s[0] != '$' && !("0x" <= s) ==> ToAddress(s) == Err(RuntimeError)
    ensures AllHex(s) && s[0] != '0' && !('0' <= s[k] <= '9') ==> ToAddress(s) == Err(ValueError)
  {
    if HexValue(s[k]) < 0 {
      BadHex(s, k);
    }
  }

  lemma BadHex(s: string, k: nat)
    requires k < |s| && HexValue(s[k]) < 0
    ensures ToAddress("$" + s) == ToAddress("0x" + s) == Err(RuntimeError)
  {
    assert ("$" + s)[1..] == s && ("0x" + s)[2..] == s && ("0x" + s)[1] == 'x' && HexValue('x') < 0;
  }

  function ThreeWords(x: string, y: string, z: string, body: File): (f: File)
    requires IsAscii(x) && IsAscii(y) && IsAscii(z)
  {
    x + " " + y + " " + z + "\n" + body
  }

  /** Any spelling of the three numbers does what the written form does; of several that are no
      numbers the first decides the error. */
  lemma AnySpelling(img: Image, x: string, y: string, z: string, body: File, crc: Crc)
    requires IsWord(x) && IsWord(y) && IsWord(z) && x[0] != '#' && IsAscii(x) && IsAscii(y) && IsAscii(z)
    ensures var text := ThreeWords(x, y, z, body);
            var a, l, c := ToAddress(x), ToAddress(y), ToAddress(z);
            if a.Err? then ReadLines(img, text, crc) == Err(a.error)
            else if l.Err? then ReadLines(img, text, crc) == Err(l.error)
            else if c.Err? then ReadLines(img, text, crc) == Err(c.error)
            else a.value >= 0 && l.value >= 0 && c.value >= 0
                 && ReadLines(img, text, crc)
                    == ReadLines(img, BlockFile(a.value, l.value, c.value, [], body), crc)
  {
    WordsAreRead(img, x, y, z, body, crc);
    FieldsAreNumbers(img, x, y, z, body, crc);
    NoNegative(x);
    NoNegative(y);
    NoNegative(z);
    hide ThreeWords, ReadLines, LinesLeave, ToAddress, IsAscii, PlaceBlock, AddBlock, BlockFile;
    var a, l, c := ToAddress(x), ToAddress(y), ToAddress(z);
    if a.Ok? && l.Ok? && c.Ok? {
      BlockIsRead(img, a.value, l.value, c.value, [], body, crc);
      assert Body([], body) == body by {
        assert Body([], body)[0..] == Body([], body);
      }
    }
  }

  lemma WordsAreRead(img: Image, x: string, y: string, z: string, body: File, crc: Crc)
    requires IsWord(x) && IsWord(y) && IsWord(z) && x[0] != '#' && IsAscii(x) && IsAscii(y) && IsAscii(z)
    ensures ReadLines(img, ThreeWords(x, y, z, body), crc)
            == (match AddBlock(img, BlockLine(x, y, z), body, crc)
                case Ok((next, more)) => ReadLines(next, more, crc)
                case Err(e) => Err(e))
  {
    var h := x + " " + y + " " + z;
    WordsAreALine(x, y, z, body);
    assert h + "\n" + body == ThreeWords(x, y, z, body);
    hide ThreeWords, ReadLines, LinesLeave, Classify, RStrip, LineLength, IsAscii, AddBlock;
    LinesAtBlock(img, h, body, BlockLine(x, y, z), crc);
  }

  lemma FieldsAreNumbers(img: Image, x: string, y: string, z: string, body: File, crc: Crc)
    ensures var a, l, c := ToAddress(x), ToAddress(y), ToAddress(z);
            AddBlock(img, BlockLine(x, y, z), body, crc)
            == if a.Err? then Err(a.error)
               else if l.Err? then Err(l.error)
               else if c.Err? then Err(c.error)
               else PlaceBlock(img, a.value, l.value, c.value, body, crc)
  {
    hide ToAddress, PlaceBlock;
  }

  lemma WordsAreALine(x: string, y: string, z: string, body: string)
    requires IsWord(x) && IsWord(y) && IsWord(z) && x[0] != '#' && IsAscii(x) && IsAscii(y) && IsAscii(z)
    ensures var h := x + " " + y + " " + z;
            && IsAscii(h) && Classify(h) == BlockLine(x, y, z)
            && LineLength(h + "\n" + body) == |h| + 1 && RStrip(h + "\n") == h != ""
  {
    var h := x + " " + y + " " + z;
    SplitThree(x, y, z);
    LineEnds(h, body);
    StripsNewline(h);
    assert h[|h| - 1] == z[|z| - 1] && h[0] == x[0];
    assert LStrip(h) == h;
  }

  lemma {:induction false} NoNegative(s: string)
    ensures ToAddress(s).Ok? ==> ToAddress(s).value >= 0
  {
    var t := if s != "" && s[0] == '$' then "0x" + s[1..] else s;
    if "0x" <= t && AllHex(t[2..]) {
      NumberIsNat(t[2..], 16);
    } else if AllHex(t) {
      NumberIsNat(t, 10);
      if |t| > 2 && AllIn(t[2..], '1') {
        NumberIsNat(t[2..], 2);
      }
    }
  }

  lemma {:induction false} NumberIsNat(s: string, base: nat)
    requires AllHex(s)
    ensures Number(s, base) >= 0
  {
    if s != "" {
      NumberIsNat(s[..|s| - 1], base);
    }
  }

  // ---- What the writer writes ----

  /** Upper-case hexadecimal digits, filled up with zeros to the width and no further. */
  lemma {:induction false} HexShape(n: nat, width: nat)
    ensures var s := Hex(n, width);
            && (forall i | 0 <= i < |s| :: '0' <= s[i] <= '9' || 'A' <= s[i] <= 'F')
            && |s| >= width && |s| >= 1 && (|s| > 1 && |s| > width ==> s[0] != '0')
    decreases n + width
  {
    if !(n < 16 && width <= 1) {
      var w := if width == 0 then 0 else width - 1;
      HexShape(n / 16, w);
      var s := Hex(n / 16, w);
      if |s| == 1 && width <= 1 {
        OneHexDigit(n / 16, w);
      }
    }
  }

  lemma OneHexDigit(n: nat, width: nat)
    requires |Hex(n, width)| == 1
    ensures n < 16 && Hex(n, width) == [HexDigit(n)]
  {
    if !(n < 16 && width <= 1) {
      HexReadsBack(n / 16, if width == 0 then 0 else width - 1);
    }
  }

  /** The file's first line, its help lines and its blocks, as they are written. */
  lemma FileIsWritten(h: string, c: Chunk, help: seq<string>, chunks: seq<Chunk>, crc: Crc)
    requires PlainHelp(h) && AllPlain(help) && c.addr >= 0 && Addressed(chunks)
    ensures AllPlain([h] + help) && Addressed([c] + chunks)
    ensures FileText(help, chunks, crc) == "#!RP6502\n" + HelpText(help) + BlocksText(chunks, crc)
    ensures HelpText([]) == "" && HelpText([h] + help) == "# " + h + "\n" + HelpText(help)
    ensures BlocksText([], crc) == ""
    ensures BlocksText([c] + chunks, crc)
            == "$" + Hex(c.addr, 4) + " $" + Hex(|c.bytes|, 3) + " $" + Hex(crc(c.bytes), 8) + "\n" + AsText(c.bytes)
               + BlocksText(chunks, crc)
  {
    assert ([h] + help)[1..] == help && ([c] + chunks)[1..] == chunks;
  }
}
