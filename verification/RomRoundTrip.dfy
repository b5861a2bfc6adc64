/** Writing a ROM image and reading the file back gives the same image. */
module RomRoundTrip {
  import opened Words
  import opened RomImage
  import opened RomFormat

  /** What building an image keeps: cells that are not allocated are still 0. */
  predicate WellFormed(img: Image) {
    && |img.help| <= 24 && AllPlain(img.help)
    && forall i | 0 <= i < ROM_SIZE && !img.alloc[i] :: img.data[i] == 0
  }

  // ---- Lines read back ----

  predicate IsWord(s: string) {
    s != "" && forall i | 0 <= i < |s| :: !IsSpace(s[i]) && s[i] != '\n'
  }

  lemma {:induction false} WordLengthOf(word: string, rest: string)
    requires ' ' !in word && (rest == "" || rest[0] == ' ')
    ensures WordLength(word + rest) == |word|
  {
    if word == "" {
      assert word + rest == rest;
    } else {
      assert (word + rest)[1..] == word[1..] + rest;
      WordLengthOf(word[1..], rest);
    }
  }

  lemma SplitHead(word: string, rest: string)
    requires IsWord(word) && (rest == "" || rest[0] == ' ')
    ensures Split(word + rest) == [word] + Split(rest)
    ensures Split(" " + word + rest) == [word] + Split(rest)
    ensures Split("") == []
  {
    WordLengthOf(word, rest);
    assert (word + rest)[..|word|] == word && (word + rest)[|word|..] == rest;
    assert (" " + word + rest)[1..] == word + rest;
    assert LStrip(word + rest) == word + rest;
    assert LStrip(" " + word + rest) == LStrip(word + rest);
  }

  lemma SplitThree(a: string, b: string, c: string)
    requires IsWord(a) && IsWord(b) && IsWord(c)
    ensures Split(a + " " + b + " " + c) == [a, b, c]
  {
    hide Split;
    var tail := " " + c + "";
    assert " " + c == tail;
    SplitHead(c, "");
    SplitHead(b, tail);
    SplitHead(a, " " + b + tail);
    assert a + (" " + b + tail) == a + " " + b + " " + c;
  }

  lemma HexIsWord(n: nat, width: nat)
    ensures IsWord("$" + Hex(n, width))
  {
    HexReadsBack(n, width);
  }

  lemma HeaderReadsBack(addr: nat, length: nat, sum: nat, rest: File)
    ensures var h := HeaderText(addr, length, sum);
            && LineLength(h + "\n" + rest) == |h| + 1
            && RStrip(h + "\n") == h != ""
            && Classify(h) == BlockLine("$" + Hex(addr, 4), "$" + Hex(length, 3), "$" + Hex(sum, 8))
  {
    var h := HeaderText(addr, length, sum);
    var a, l, w := "$" + Hex(addr, 4), "$" + Hex(length, 3), "$" + Hex(sum, 8);
    HexIsWord(addr, 4);
    HexIsWord(length, 3);
    HexIsWord(sum, 8);
    assert h == a + " " + l + " " + w;
    SplitThree(a, l, w);
    LineEnds(h, rest);
    assert (h + "\n")[..|h|] == h && h[|h| - 1] == w[|w| - 1];
    assert h[0] == '$';
  }

  // ---- Blocks ----

  /** The cells below `at`; above, an empty image. */
  function Below(img: Image, at: int, help: seq<string>): Image {
    Image(help, seq(ROM_SIZE, i requires 0 <= i < ROM_SIZE => CellBelow(img, at, i)),
          seq(ROM_SIZE, i requires 0 <= i < ROM_SIZE => i < at && img.alloc[i]))
  }

  function CellBelow(img: Image, at: int, i: int): Byte
    requires 0 <= i < ROM_SIZE
  {
    if i < at then img.data[i] else 0
  }

  /** Adding the next block to what lies below it gives what lies below its end. */
  lemma BlockExtends(img: Image, from: int, c: Chunk, help: seq<string>)
    requires WellFormed(img) && 0 <= from && Leads(img, from, c)
    ensures var b, end := Below(img, from, help), c.addr + |c.bytes|;
            && Allocate(b.alloc, c.addr, |c.bytes|) == Ok(Below(img, end, help).alloc)
            && Store(b.data, c.addr, c.bytes) == Below(img, end, help).data
  {
    var b, end := Below(img, from, help), c.addr + |c.bytes|;
    assert FirstMarked(b.alloc, c.addr, end) == end;
    assert Mark(b.alloc, c.addr, end) == Below(img, end, help).alloc;
  }

  lemma BytesReadBack(bytes: seq<Byte>)
    ensures AsBytes(AsText(bytes)) == bytes
  {
  }

  lemma BlockReadsBack(img: Image, from: int, c: Chunk, help: seq<string>, more: File, crc: Crc)
    requires WellFormed(img) && 0 <= from && Leads(img, from, c) && c.addr >= 0
    ensures ReadLines(Below(img, from, help), BlockHeader(c, crc) + "\n" + AsText(c.bytes) + more, crc)
            == ReadLines(Below(img, c.addr + |c.bytes|, help), more, crc)
  {
    hide Allocate, Below, AddBlock, Classify, RStrip, LineLength, HeaderText, Leads, AsText, WellFormed;
    var h, body := BlockHeader(c, crc), AsText(c.bytes) + more;
    var text := h + "\n" + AsText(c.bytes) + more;
    HeaderReadsBack(c.addr, |c.bytes|, crc(c.bytes), body);
    assert text == h + "\n" + body;
    assert text[..|h| + 1] == h + "\n" && text[|h| + 1..] == body;
    BlockIsAdded(img, from, c, help, more, crc);
  }

  lemma BlockIsAdded(img: Image, from: int, c: Chunk, help: seq<string>, more: File, crc: Crc)
    requires WellFormed(img) && 0 <= from && Leads(img, from, c)
    ensures AddBlock(Below(img, from, help),
                     BlockLine("$" + Hex(c.addr, 4), "$" + Hex(|c.bytes|, 3), "$" + Hex(crc(c.bytes), 8)),
                     AsText(c.bytes) + more, crc)
            == Ok((Below(img, c.addr + |c.bytes|, help), more))
  {
    HexAddress(c.addr, 4);
    HexAddress(|c.bytes|, 3);
    HexAddress(crc(c.bytes), 8);
    BlockExtends(img, from, c, help);
    BytesReadBack(c.bytes);
    var rest := AsText(c.bytes) + more;
    assert rest[..|c.bytes|] == AsText(c.bytes) && rest[|c.bytes|..] == more;
    hide Allocate, Store, ToAddress, AsBytes, AsText, WellFormed;
  }

  lemma {:induction false} BlocksReadBack(img: Image, from: int, chunks: seq<Chunk>, help: seq<string>, crc: Crc)
    requires WellFormed(img) && 0 <= from <= ROM_SIZE && Covers(img, from, chunks)
    requires Addressed(chunks)
    ensures ReadLines(Below(img, from, help), BlocksText(chunks, crc), crc) == Ok(img.(help := help))
    decreases |chunks|
  {
    hide ReadLines, Below, BlockHeader, AsText, WellFormed;
    if chunks == [] {
      NothingLeft(img, from, help, crc);
    } else {
      var c := chunks[0];
      BlockReadsBack(img, from, c, help, BlocksText(chunks[1..], crc), crc);
      BlocksReadBack(img, c.addr + |c.bytes|, chunks[1..], help, crc);
    }
  }

  lemma NothingLeft(img: Image, from: int, help: seq<string>, crc: Crc)
    requires WellFormed(img) && 0 <= from <= ROM_SIZE && forall i | from <= i < ROM_SIZE :: !img.alloc[i]
    ensures ReadLines(Below(img, from, help), "", crc) == Ok(img.(help := help))
  {
    assert Below(img, from, help) == img.(help := help);
  }

  // ---- Help lines ----

  lemma HelpLineReadsBack(h: string, rest: File)
    requires PlainHelp(h)
    ensures var line := "# " + h;
            && LineLength(line + "\n" + rest) == |line| + 1
            && RStrip(line + "\n") != "" && Classify(RStrip(line + "\n")) == HelpLine(h)
  {
    var line := "# " + h;
    LineEnds(line, rest);
    assert (line + "\n")[..|line|] == line;
    if h == "" {
      assert line[..1] == "#";
      assert RStrip(line) == RStrip("#") == "#";
    } else {
      assert line[|line| - 1] == h[|h| - 1];
      assert |RStrip(h[..|h| - 1])| < |h|;
      assert RStrip(line) == line && LStrip(line) == line && line[2..] == h;
    }
  }

  lemma {:induction false} HelpReadsBack(img: Image, help: seq<string>, rest: File, crc: Crc)
    requires AllPlain(help) && |img.help| + |help| <= 24
    ensures ReadLines(img, HelpText(help) + rest, crc) == ReadLines(img.(help := img.help + help), rest, crc)
    decreases |help|
  {
    hide ReadLines, IsAscii, PlainHelp;
    if help == [] {
      assert HelpText(help) + rest == rest;
      assert img.(help := img.help + help) == img;
    } else {
      var h, tail := help[0], HelpText(help[1..]) + rest;
      var next := img.(help := img.help + [h]);
      HelpLineIsAdded(img, h, tail, crc);
      Associate("# " + h + "\n", HelpText(help[1..]), rest);
      HelpReadsBack(next, help[1..], rest, crc);
      assert next.help + help[1..] == img.help + help;
    }
  }

  lemma Associate(a: string, b: string, c: string)
    ensures a + b + c == a + (b + c)
  {
  }

  lemma HelpLineIsAdded(img: Image, h: string, tail: File, crc: Crc)
    requires PlainHelp(h) && |img.help| < 24
    ensures var text := "# " + h + "\n" + tail;
            (forall i | 0 <= i < |text| :: text[i] < 256 as char)
            && ReadLines(img, text, crc) == ReadLines(img.(help := img.help + [h]), tail, crc)
  {
    var text: File := "# " + h + "\n" + tail;
    HelpLineReadsBack(h, tail);
    assert text[..|h| + 3] == "# " + h + "\n" && text[|h| + 3..] == tail;
    hide Classify, RStrip, LineLength;
  }

  // ---- The round trip ----

  /** For every image that can be walked, the written file is accepted and gives back the same
      help text, allocation map and bytes, whatever the checksum function is. */
  lemma {:induction false} RoundTrip(img: Image, crc: Crc)
    requires WellFormed(img) && Walk(img, 0).Ok?
    ensures var chunks := Walk(img, 0).value;
            && Addressed(chunks)
            && ReadFile(EMPTY, FileText(img.help, chunks, crc), crc) == Ok(img)
  {
    hide ReadLines, BlocksText, HelpText, Covers, Walk, LineLength;
    var chunks := Walk(img, 0).value;
    WalkCovers(img, 0);
    ChunksStartAfter(img, 0, chunks);
    var blocks := BlocksText(chunks, crc);
    var file := FileText(img.help, chunks, crc);
    LineEnds("#!RP6502", HelpText(img.help) + blocks);
    assert file == "#!RP6502" + "\n" + (HelpText(img.help) + blocks);
    assert file[..9] == "#!RP6502\n" && file[9..] == HelpText(img.help) + blocks;
    HelpReadsBack(EMPTY, img.help, blocks, crc);
    assert EMPTY.help + img.help == img.help;
    assert EMPTY.(help := img.help) == Below(img, 0, img.help);
    BlocksReadBack(img, 0, chunks, img.help, crc);
  }

  // ---- Which images there are ----

  lemma {:induction false} NoNewlineBefore(text: string, k: nat)
    requires k + 1 < LineLength(text)
    ensures text[k] != '\n'
  {
    if k > 0 {
      NoNewlineBefore(text[1..], k - 1);
    }
  }

  /** A decoded, stripped line has no newline and does not end in white space. */
  lemma CommandShape(text: string)
    ensures var c := RStrip(text[..LineLength(text)]);
            '\n' !in c && (c != "" ==> !IsSpace(c[|c| - 1]))
  {
    var line := text[..LineLength(text)];
    StripsTail(line);
    var c := RStrip(line);
    forall k | 0 <= k < |c| ensures c[k] != '\n' {
      if k + 1 < LineLength(text) {
        NoNewlineBefore(text, k);
      }
    }
  }

  lemma {:induction false} StripsTail(s: string)
    ensures var c := RStrip(s); c != "" ==> !IsSpace(c[|c| - 1])
  {
    if s != "" && IsSpace(s[|s| - 1]) {
      StripsTail(s[..|s| - 1]);
    }
  }

  lemma {:induction false} LStripIsSuffix(s: string)
    ensures LStrip(s) == s[|s| - |LStrip(s)|..]
  {
    if s != "" && s[0] == ' ' {
      LStripIsSuffix(s[1..]);
    }
  }

  lemma HelpIsPlain(text: string, t: string)
    requires var c := RStrip(text[..LineLength(text)]); IsAscii(text[..LineLength(text)]) && Classify(c) == HelpLine(t)
    requires |t| <= 80
    ensures PlainHelp(t)
  {
    var c := RStrip(text[..LineLength(text)]);
    CommandShape(text);
    LStripIsSuffix(c);
    assert t == c[|c| - |t|..];
    assert forall k | 0 <= k < |t| :: t[k] == c[|c| - |t| + k];
    if t != "" {
      assert t[|t| - 1] == c[|c| - 1];
    }
  }

  lemma BlockKeepsClean(img: Image, line: Line, rest: File, crc: Crc)
    requires WellFormed(img) && line.BlockLine? && AddBlock(img, line, rest, crc).Ok?
    ensures WellFormed(AddBlock(img, line, rest, crc).value.0)
  {
    hide ToAddress;
    var addr, length := ToAddress(line.addr).value, ToAddress(line.length).value;
    var next := AddBlock(img, line, rest, crc).value.0;
    assert next.alloc == Mark(img.alloc, addr, addr + length);
    assert next.data == Store(img.data, addr, AsBytes(rest[..length]));
  }

  /** Reading a file into a well-formed image leaves it well-formed, so that everything the tool
      can build satisfies what the round trip asks for. */
  lemma {:induction false} ReadKeepsWellFormed(img: Image, text: File, crc: Crc)
    requires WellFormed(img) && ReadLines(img, text, crc).Ok?
    ensures WellFormed(ReadLines(img, text, crc).value)
    decreases |text|
  {
    hide WellFormed, LineLength, AddBlock, Classify, RStrip;
    var n := LineLength(text);
    var command := RStrip(text[..n]);
    if command != "" {
      match Classify(command) {
        case HelpLine(t) =>
          HelpIsPlain(text, t);
          HelpKeepsWellFormed(img, t);
          ReadKeepsWellFormed(AddHelp(img, t).value, text[n..], crc);
        case BlockLine(a, l, c) =>
          BlockKeepsClean(img, BlockLine(a, l, c), text[n..], crc);
          var (next, rest) := AddBlock(img, BlockLine(a, l, c), text[n..], crc).value;
          ReadKeepsWellFormed(next, rest, crc);
        case BadLine =>
      }
    }
  }

  lemma HelpKeepsWellFormed(img: Image, t: string)
    requires WellFormed(img) && PlainHelp(t) && AddHelp(img, t).Ok?
    ensures WellFormed(AddHelp(img, t).value)
  {
  }

  /** So does adding binary data. */
  lemma StoreKeepsWellFormed(img: Image, addr: int, bytes: seq<Byte>)
    requires WellFormed(img) && Allocate(img.alloc, addr, |bytes|).Ok?
    ensures WellFormed(Image(img.help, Store(img.data, addr, bytes), Allocate(img.alloc, addr, |bytes|).value))
  {
    assert Allocate(img.alloc, addr, |bytes|).value == Mark(img.alloc, addr, addr + |bytes|);
  }
}
