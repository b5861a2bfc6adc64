/** The RP6502 ROM file format: numbers, lines and their classification, writing and reading
    (tools/rp6502.py).  A file is a string of characters below 256, one for each byte. */
module RomFormat {
  import opened Words
  import opened RomImage
  import opened Wrappers

  type File = s: string | forall i | 0 <= i < |s| :: s[i] < 256 as char

  /** binascii.crc32, about which nothing is assumed. */
  type Crc = seq<Byte> -> U32

  function AsText(bytes: seq<Byte>): (f: File)
    ensures |f| == |bytes|
  {
    seq(|bytes|, i requires 0 <= i < |bytes| => bytes[i] as char)
  }

  function AsBytes(text: File): (b: seq<Byte>)
    ensures |b| == |text|
  {
    seq(|text|, i requires 0 <= i < |text| => text[i] as int)
  }

  // ---- Numbers ----

  function HexDigit(d: int): char
    requires 0 <= d < 16
  {
    if d < 10 then '0' + d as char else 'A' + (d - 10) as char
  }

  function HexValue(c: char): (v: int)
    ensures -1 <= v < 16
  {
    if '0' <= c <= '9' then (c - '0') as int
    else if 'A' <= c <= 'F' then (c - 'A') as int + 10
    else if 'a' <= c <= 'f' then (c - 'a') as int + 10
    else -1
  }

  predicate AllHex(s: string) {
    forall i | 0 <= i < |s| :: HexValue(s[i]) >= 0
  }

  /** Upper-case hexadecimal, zero-padded to at least `width` digits. */
  function Hex(n: nat, width: nat): string
    decreases n + width
  {
    if n < 16 && width <= 1 then [HexDigit(n)]
    else Hex(n / 16, if width == 0 then 0 else width - 1) + [HexDigit(n % 16)]
  }

  function Number(s: string, base: int): int {
    if s == "" then 0 else Number(s[..|s| - 1], base) * base + HexValue(s[|s| - 1])
  }

  lemma {:induction false} HexReadsBack(n: nat, width: nat)
    ensures var s := Hex(n, width); s != "" && AllHex(s) && Number(s, 16) == n
    decreases n + width
  {
    if !(n < 16 && width <= 1) {
      var w := if width == 0 then 0 else width - 1;
      HexReadsBack(n / 16, w);
      var s := Hex(n, width);
      assert s[..|s| - 1] == Hex(n / 16, w);
    } else {
      assert Hex(n, width)[..0] == "";
    }
  }

  predicate AllIn(s: string, limit: char) {
    forall i | 0 <= i < |s| :: '0' <= s[i] <= limit
  }

  /** Python's int(s, 0) on a string of hexadecimal digits without the 0x prefix. */
  function PythonInt(s: string): Result<int> {
    if |s| > 2 && s[0] == '0' && (s[1] == 'b' || s[1] == 'B') && AllIn(s[2..], '1') then Ok(Number(s[2..], 2))
    else if s == "" || !AllIn(s, '9') || (s[0] == '0' && !AllIn(s, '0')) then Err(ValueError)
    else Ok(Number(s, 10))
  }

  /** str_to_address. */
  function ToAddress(s: string): Result<int> {
    var t := if s != "" && s[0] == '$' then "0x" + s[1..] else s;
    if "0x" <= t && AllHex(t[2..]) then
      if |t| == 2 then Err(ValueError) else Ok(Number(t[2..], 16))
    else if AllHex(t) then PythonInt(t)
    else Err(RuntimeError)
  }

  lemma HexAddress(n: nat, width: nat)
    ensures ToAddress("$" + Hex(n, width)) == Ok(n)
  {
    HexReadsBack(n, width);
    assert ("$" + Hex(n, width))[1..] == Hex(n, width);
    assert ("0x" + Hex(n, width))[2..] == Hex(n, width);
  }

  // ---- Lines ----

  /** How many characters readline takes: through the first newline, or all. */
  function LineLength(text: string): (n: nat)
    ensures n <= |text| && (text != "" ==> n > 0)
  {
    if text == "" then 0 else if text[0] == '\n' then 1 else 1 + LineLength(text[1..])
  }

  lemma {:induction false} LineEnds(line: string, rest: string)
    requires '\n' !in line
    ensures LineLength(line + "\n" + rest) == |line| + 1
  {
    if line != "" {
      assert (line + "\n" + rest)[1..] == line[1..] + "\n" + rest;
      LineEnds(line[1..], rest);
    }
  }

  /** What str.rstrip strips, among the characters that decode as ASCII. */
  predicate IsSpace(c: char) {
    c == ' ' || '\t' <= c <= '\r' || '\U{1C}' <= c <= '\U{1F}'
  }

  function RStrip(s: string): (r: string)
    ensures |r| <= |s| && r == s[..|r|]
  {
    if s != "" && IsSpace(s[|s| - 1]) then RStrip(s[..|s| - 1]) else s
  }

  function LStrip(s: string): (r: string)
    ensures |r| <= |s| && (r != "" ==> r[0] != ' ')
  {
    if s != "" && s[0] == ' ' then LStrip(s[1..]) else s
  }

  /** Length of the leading run without a blank. */
  function WordLength(s: string): (n: nat)
    ensures n <= |s| && (s != "" && s[0] != ' ' ==> n > 0)
  {
    if s == "" || s[0] == ' ' then 0 else 1 + WordLength(s[1..])
  }

  function Split(s: string): seq<string>
    decreases |s|
  {
    var t := LStrip(s);
    if t == "" then [] else [t[..WordLength(t)]] + Split(t[WordLength(t)..])
  }

  /** The three groups of ^ *([^ ]+) *([^ ]+) *([^ ]+) *$ : with fewer than three words the
      matcher gives characters back from the left groups. */
  function ThreeGroups(w: seq<string>): Option<(string, string, string)> {
    if |w| == 3 then Some((w[0], w[1], w[2]))
    else if |w| == 2 && |w[1]| > 1 then Some((w[0], w[1][..|w[1]| - 1], w[1][|w[1]| - 1..]))
    else if |w| == 2 && |w[0]| > 1 then Some((w[0][..|w[0]| - 1], w[0][|w[0]| - 1..], w[1]))
    else if |w| == 1 && |w[0]| > 2 then
      Some((w[0][..|w[0]| - 2], w[0][|w[0]| - 2..|w[0]| - 1], w[0][|w[0]| - 1..]))
    else None
  }

  datatype Line = HelpLine(text: string) | BlockLine(addr: string, length: string, crc: string) | BadLine

  function Classify(command: string): Line {
    var t := LStrip(command);
    if "# " <= t then HelpLine(t[2..])
    else if t == "#" then HelpLine("")
    else
      match ThreeGroups(Split(command))
      case Some((a, l, c)) => BlockLine(a, l, c)
      case None => BadLine
  }

  predicate IsAscii(s: string) {
    forall i | 0 <= i < |s| :: s[i] < 128 as char
  }

  // ---- Reading ----

  /** ^#![Rr][Pp]6502\r?\n$ */
  predicate IsMagic(line: string) {
    line in {"#!RP6502\n", "#!Rp6502\n", "#!rP6502\n", "#!rp6502\n",
             "#!RP6502\r\n", "#!Rp6502\r\n", "#!rP6502\r\n", "#!rp6502\r\n"}
  }

  function AddHelp(img: Image, text: string): Result<Image> {
    if |text| > 80 || |img.help| + 1 > 24 then Err(RuntimeError) else Ok(img.(help := img.help + [text]))
  }

  /** The block's bytes are checked against its checksum and stored. */
  function PlaceBlock(img: Image, addr: int, length: int, want: int, rest: File, crc: Crc): (r: Result<(Image, File)>)
    ensures r.Ok? ==> |r.value.1| <= |rest|
  {
    match Allocate(img.alloc, addr, length)
    case Err(e) => Err(e)
    case Ok(alloc) =>
      if |rest| < length || want != crc(AsBytes(rest[..length])) then Err(RuntimeError)
      else Ok((Image(img.help, Store(img.data, addr, AsBytes(rest[..length])), alloc), rest[length..]))
  }

  /** A data block: `rest` is the file after its header line. */
  function AddBlock(img: Image, line: Line, rest: File, crc: Crc): (r: Result<(Image, File)>)
    requires line.BlockLine?
    ensures r.Ok? ==> |r.value.1| <= |rest|
  {
    var addr :- ToAddress(line.addr);
    var length :- ToAddress(line.length);
    var want :- ToAddress(line.crc);
    PlaceBlock(img, addr, length, want, rest, crc)
  }

  /** The reader's loop, on what is left of the file. */
  function ReadLines(img: Image, text: File, crc: Crc): Result<Image>
    decreases |text|
  {
    var n := LineLength(text);
    if !IsAscii(text[..n]) then Err(ValueError)
    else
      var command := RStrip(text[..n]);
      if command == "" then Ok(img)
      else
        match Classify(command)
        case HelpLine(t) =>
          var next :- AddHelp(img, t);
          ReadLines(next, text[n..], crc)
        case BlockLine(a, l, c) =>
          var (next, rest) :- AddBlock(img, BlockLine(a, l, c), text[n..], crc);
          ReadLines(next, rest, crc)
        case BadLine => Err(RuntimeError)
  }

  function ReadFile(img: Image, file: File, crc: Crc): Result<Image> {
    var n := LineLength(file);
    if !IsMagic(file[..n]) then Err(RuntimeError) else ReadLines(img, file[n..], crc)
  }

  // ---- What a failed read leaves behind ----

  /** The cells marked by an allocation, up to the first clash. */
  function AllocLeaves(alloc: Marks, addr: int, length: int): Marks {
    if InRange(addr, length) then Mark(alloc, addr, FirstMarked(alloc, addr, addr + length)) else alloc
  }

  function HelpLeaves(img: Image, text: string): Image {
    if |text| > 80 then img else img.(help := img.help + [text])
  }

  function BlockLeaves(img: Image, line: Line, rest: File, crc: Crc): Image
    requires line.BlockLine?
  {
    match AddBlock(img, line, rest, crc)
    case Ok((next, _)) => next
    case Err(_) =>
      match (ToAddress(line.addr), ToAddress(line.length), ToAddress(line.crc))
      case (Ok(addr), Ok(length), Ok(_)) => img.(alloc := AllocLeaves(img.alloc, addr, length))
      case _ => img
  }

  function LinesLeave(img: Image, text: File, crc: Crc): Image
    decreases |text|
  {
    var n := LineLength(text);
    var command := RStrip(text[..n]);
    if !IsAscii(text[..n]) || command == "" then img
    else
      match Classify(command)
      case HelpLine(t) =>
        if AddHelp(img, t).Ok? then LinesLeave(HelpLeaves(img, t), text[n..], crc) else HelpLeaves(img, t)
      case BlockLine(a, l, c) =>
        var left := BlockLeaves(img, BlockLine(a, l, c), text[n..], crc);
        (match AddBlock(img, BlockLine(a, l, c), text[n..], crc)
         case Ok((_, rest)) => LinesLeave(left, rest, crc)
         case Err(_) => left)
      case BadLine => img
  }

  function FileLeaves(img: Image, file: File, crc: Crc): Image {
    var n := LineLength(file);
    if IsMagic(file[..n]) then LinesLeave(img, file[n..], crc) else img
  }

  /** A file that is accepted leaves the image it defines. */
  lemma {:induction false} AcceptedLeaves(img: Image, text: File, crc: Crc)
    requires ReadLines(img, text, crc).Ok?
    ensures LinesLeave(img, text, crc) == ReadLines(img, text, crc).value
    decreases |text|
  {
    hide LineLength, RStrip, IsAscii, Classify, AddBlock, IsMagic;
    var n := LineLength(text);
    var command := RStrip(text[..n]);
    if command != "" {
      match Classify(command)
      case HelpLine(t) => AcceptedLeaves(AddHelp(img, t).value, text[n..], crc);
      case BlockLine(a, l, c) =>
        var (next, rest) := AddBlock(img, BlockLine(a, l, c), text[n..], crc).value;
        AcceptedLeaves(next, rest, crc);
      case BadLine =>
    }
  }

  // ---- Writing ----

  /** A help line that the text form preserves. */
  predicate PlainHelp(h: string) {
    |h| <= 80 && IsAscii(h) && '\n' !in h && RStrip(h) == h
  }

  predicate AllPlain(help: seq<string>) {
    forall k | 0 <= k < |help| :: PlainHelp(help[k])
  }

  function HelpText(help: seq<string>): (f: File)
    requires AllPlain(help)
  {
    if help == [] then ""
    else
      assert PlainHelp(help[0]);
      "# " + help[0] + "\n" + HelpText(help[1..])
  }

  /** The line in front of a block. */
  function HeaderText(addr: nat, length: nat, sum: nat): (h: string)
    ensures IsAscii(h)
  {
    HexReadsBack(addr, 4);
    HexReadsBack(length, 3);
    HexReadsBack(sum, 8);
    "$" + Hex(addr, 4) + " $" + Hex(length, 3) + " $" + Hex(sum, 8)
  }

  function BlockHeader(c: Chunk, crc: Crc): (h: string)
    requires c.addr >= 0
    ensures IsAscii(h)
  {
    HeaderText(c.addr, |c.bytes|, crc(c.bytes))
  }

  predicate Addressed(chunks: seq<Chunk>) {
    forall k | 0 <= k < |chunks| :: chunks[k].addr >= 0
  }

  function BlocksText(chunks: seq<Chunk>, crc: Crc): (f: File)
    requires Addressed(chunks)
  {
    if chunks == [] then ""
    else BlockHeader(chunks[0], crc) + "\n" + AsText(chunks[0].bytes) + BlocksText(chunks[1..], crc)
  }

  function FileText(help: seq<string>, chunks: seq<Chunk>, crc: Crc): (f: File)
    requires AllPlain(help)
    requires Addressed(chunks)
  {
    "#!RP6502\n" + HelpText(help) + BlocksText(chunks, crc)
  }
}
