/** The ROM class of tools/rp6502.py: lists updated in place, exceptions as results. */
module Rom {
  import opened Words
  import opened RomImage
  import opened RomFormat
  import opened Wrappers

  class ROM {
    var help: seq<string>
    const data: array<Byte>
    const alloc: array<bool>

    ghost predicate Valid()
      reads this
    {
      data.Length == ROM_SIZE && alloc.Length == ROM_SIZE
    }

    ghost function Abs(): Image
      requires Valid()
      reads this, data, alloc
    {
      Image(help, data[..], alloc[..])
    }

    constructor ()
      ensures Valid() && Abs() == EMPTY && fresh(data) && fresh(alloc)
    {
      help := [];
      data := new Byte[ROM_SIZE](_ => 0);
      alloc := new bool[ROM_SIZE](_ => false);
    }

    /** The line is in the list when the row limit raises. */
    method AddHelpLine(s: string) returns (e: Option<Error>)
      requires Valid()
      modifies this`help
      ensures e == match AddHelp(old(Abs()), s) case Ok(_) => None case Err(error) => Some(error)
      ensures Abs() == HelpLeaves(old(Abs()), s)
      ensures e == if |s| <= 80 && |old(help)| < 24 then None else Some(RuntimeError)
      ensures help == if |s| <= 80 then old(help) + [s] else old(help)
    {
      if |s| > 80 {
        return Some(RuntimeError);
      }
      help := help + [s];
      if |help| > 24 {
        return Some(RuntimeError);
      }
      return None;
    }

    /** On a collision the cells before it stay marked. */
    method AllocateRom(addr: int, length: int) returns (e: Option<Error>)
      requires Valid()
      modifies alloc
      ensures e == match Allocate(old(alloc[..]), addr, length) case Ok(_) => None case Err(error) => Some(error)
      ensures alloc[..] == AllocLeaves(old(alloc[..]), addr, length)
      ensures e == Some(IndexError)
              <==> addr < 0 || length < 0 || addr + length > 0x2_0000 || addr < 0x1_0000 < addr + length
      ensures e == Some(IndexError) ==> alloc[..] == old(alloc[..])
      ensures e == None ==> forall i | 0 <= i < ROM_SIZE ::
                              alloc[i] == (addr <= i < addr + length || old(alloc[i]))
                              && (addr <= i < addr + length ==> !old(alloc[i]))
      ensures e.Some? && e != Some(IndexError) ==>
                e == Some(MemoryError) && exists k | addr <= k < addr + length ::
                  old(alloc[k]) && forall i | 0 <= i < ROM_SIZE :: alloc[i] == (addr <= i < k || old(alloc[i]))
    {
      if (addr < BANK && addr + length > BANK) || addr + length > ROM_SIZE || addr < 0 || length < 0 {
        return Some(IndexError);
      }
      hide Mark;
      ghost var was := alloc[..];
      MarkNone(was, addr);
      var i := 0;
      while i < length
        invariant 0 <= i <= length
        invariant FirstMarked(was, addr, addr + length) == FirstMarked(was, addr + i, addr + length)
        invariant alloc[..] == Mark(was, addr, addr + i)
      {
        MarkOne(was, addr, addr + i);
        ghost var marked := alloc[..];
        if alloc[addr + i] {
          MarkedBelow(was, alloc[..], addr, addr + i);
          return Some(MemoryError);
        }
        alloc[addr + i] := true;
        assert alloc[..] == marked[addr + i := true];
        i := i + 1;
      }
      MarkedBelow(was, alloc[..], addr, addr + length);
      NoneMarked(was, addr, addr + length);
      return None;
    }

    /** The stores of add_binary_data and add_rp6502_file. */
    method StoreBytes(addr: int, bytes: seq<Byte>)
      requires Valid() && 0 <= addr && addr + |bytes| <= ROM_SIZE
      modifies data
      ensures data[..] == Store(old(data[..]), addr, bytes)
    {
      ghost var was := data[..];
      var i := 0;
      while i < |bytes|
        invariant 0 <= i <= |bytes|
        invariant data[..] == Store(was, addr, bytes[..i])
      {
        data[addr + i] := bytes[i];
        i := i + 1;
        assert bytes[..i] == bytes[..i - 1] + [bytes[i - 1]];
      }
      assert bytes[..i] == bytes;
    }

    method AddBinaryData(bytes: seq<Byte>, addr: int) returns (e: Option<Error>)
      requires Valid()
      modifies data, alloc
      ensures var r, was := Allocate(old(alloc[..]), addr, |bytes|), old(Abs());
              && e == (match r case Ok(_) => None case Err(error) => Some(error))
              && Abs() == (match r case Ok(alloc) => Image(was.help, Store(was.data, addr, bytes), alloc)
                                   case Err(_) => was.(alloc := AllocLeaves(was.alloc, addr, |bytes|)))
      ensures forall i | 0 <= i < ROM_SIZE ::
                data[i] == if e == None && addr <= i < addr + |bytes| then bytes[i - addr] else old(data[i])
    {
      e := AllocateRom(addr, |bytes|);
      if e.None? {
        StoreBytes(addr, bytes);
      }
    }

    method NextRomData(from: int) returns (r: Result<Option<Chunk>>)
      requires Valid() && 0 <= from
      ensures r == NextChunk(Abs(), from)
    {
      var addr := from;
      while addr < ROM_SIZE
        invariant from <= addr && (from < ROM_SIZE ==> addr <= ROM_SIZE)
        invariant from < ROM_SIZE ==> FirstMarked(alloc[..], from, ROM_SIZE) == FirstMarked(alloc[..], addr, ROM_SIZE)
      {
        if alloc[addr] {
          var length := 0;
          while true
            invariant 0 <= length && addr + length <= ROM_SIZE
            invariant ChunkLength(alloc[..], addr, 0) == ChunkLength(alloc[..], addr, length)
            decreases ROM_SIZE - length
          {
            if addr + length == ROM_SIZE {
              return Err(IndexError);   // self.alloc[addr + length] is past the end of the list
            }
            if !alloc[addr + length] {
              break;
            }
            length := length + 1;
            if length == CHUNK_MAX || addr + length == BANK {
              break;
            }
          }
          return Ok(Some(Chunk(addr, data[addr..addr + length])));
        }
        addr := addr + 1;
      }
      return Ok(None);
    }

    method WriteHelp() returns (text: string)
      requires AllPlain(help)
      ensures text == HelpText(help)
    {
      hide PlainHelp;
      text := "";
      var i := 0;
      assert help[0..] == help;
      while i < |help|
        invariant 0 <= i <= |help|
        invariant text + HelpText(help[i..]) == HelpText(help)
      {
        assert help[i..][1..] == help[i + 1..];
        text := text + ("# " + help[i] + "\n");
        i := i + 1;
      }
    }

    method WriteBlocks(crc: Crc) returns (r: Result<string>)
      requires Valid()
      ensures match Walk(Abs(), 0)
              case Ok(chunks) => Addressed(chunks) && r == Ok(BlocksText(chunks, crc))
              case Err(error) => r == Err(error)
    {
      hide NextChunk, BlocksText, BlockHeader, AsText;
      ghost var img := Abs();
      WalkIsAddressed(img, 0);
      var addr, text := 0, "";
      ghost var written: seq<Chunk> := [];
      NoBlocks(img, crc);
      var next := NextRomData(addr);
      while next.Ok? && next.value.Some?
        invariant 0 <= addr <= ROM_SIZE && next == NextChunk(img, addr)
        invariant Addressed(written) && text == BlocksText(written, crc)
        invariant Walk(img, 0) == Prepend(written, Walk(img, addr))
        decreases ROM_SIZE - addr
      {
        var c := next.value.value;
        NextChunkShape(img, addr);
        text := text + (BlockHeader(c, crc) + "\n" + AsText(c.bytes));
        BlocksTextAppend(written, c, crc);
        PrependStep(written, c, Walk(img, c.addr + |c.bytes|));
        written := written + [c];
        addr := c.addr + |c.bytes|;
        next := NextRomData(addr);
      }
      if next.Err? {
        return Err(next.error);
      }
      assert written + [] == written;
      return Ok(text);
    }

    /** The writer of the create command; an exception leaves no complete file. */
    method Create(crc: Crc) returns (r: Result<string>)
      requires Valid() && AllPlain(help)
      ensures match Walk(Abs(), 0)
              case Ok(chunks) => Addressed(chunks) && r == Ok(FileText(help, chunks, crc))
              case Err(error) => r == Err(error)
    {
      var helpText := WriteHelp();
      var blocks := WriteBlocks(crc);
      if blocks.Err? {
        return Err(blocks.error);
      }
      return Ok("#!RP6502\n" + helpText + blocks.value);
    }

    /** add_rp6502_file; `file` is what the file holds. */
    method AddRp6502File(file: File, crc: Crc) returns (e: Option<Error>)
      requires Valid()
      modifies this`help, data, alloc
      ensures match ReadFile(old(Abs()), file, crc)
              case Ok(img) => e == None && Abs() == img
              case Err(error) => e == Some(error)
      ensures Abs() == FileLeaves(old(Abs()), file, crc)
    {
      hide LineLength, IsMagic, RStrip, Classify, AddBlock, IsAscii, BlockLeaves;
      var n := LineLength(file);
      if !IsMagic(file[..n]) {
        return Some(RuntimeError);
      }
      ghost var goal, left := ReadLines(Abs(), file[n..], crc), LinesLeave(Abs(), file[n..], crc);
      var text: File := file[n..];
      while true
        invariant goal == ReadLines(Abs(), text, crc) && left == LinesLeave(Abs(), text, crc)
        decreases |text|
      {
        n := LineLength(text);
        if !IsAscii(text[..n]) {
          return Some(ValueError);
        }
        var command := RStrip(text[..n]);
        if command == "" {
          return None;
        }
        match Classify(command) {
          case HelpLine(t) =>
            e := AddHelpLine(t);
            if e.Some? {
              return;
            }
            text := text[n..];
          case BlockLine(a, l, c) =>
            var rest: File;
            e, rest := AddBlockData(BlockLine(a, l, c), text[n..], crc);
            if e.Some? {
              return;
            }
            text := rest;
          case BadLine =>
            return Some(RuntimeError);
        }
      }
    }

    method AddBlockData(line: Line, rest: File, crc: Crc) returns (e: Option<Error>, more: File)
      requires Valid() && line.BlockLine?
      modifies data, alloc
      ensures match AddBlock(old(Abs()), line, rest, crc)
              case Ok((img, left)) => e == None && Abs() == img && more == left
              case Err(error) => e == Some(error)
      ensures Abs() == BlockLeaves(old(Abs()), line, rest, crc)
    {
      hide ToAddress, Mark, FirstMarked, Store;
      more := rest;
      var addr, length, want := ToAddress(line.addr), ToAddress(line.length), ToAddress(line.crc);
      if addr.Err? {
        return Some(addr.error), more;
      }
      if length.Err? {
        return Some(length.error), more;
      }
      if want.Err? {
        return Some(want.error), more;
      }
      e := AllocateRom(addr.value, length.value);
      if e.Some? {
        return;
      }
      if |rest| < length.value || want.value != crc(AsBytes(rest[..length.value])) {
        return Some(RuntimeError), more;
      }
      StoreBytes(addr.value, AsBytes(rest[..length.value]));
      more := rest[length.value..];
    }
  }

  lemma MarkedBelow(was: Marks, now: Marks, from: int, end: int)
    requires 0 <= from <= end <= ROM_SIZE && now == Mark(was, from, end)
    ensures forall i | 0 <= i < ROM_SIZE :: now[i] == (from <= i < end || was[i])
  {
  }

  lemma NoneMarked(was: Marks, from: int, end: int)
    requires 0 <= from <= end <= ROM_SIZE && FirstMarked(was, from, end) == end
    ensures forall i | from <= i < end :: !was[i]
  {
  }

  function Prepend(chunks: seq<Chunk>, r: Result<seq<Chunk>>): Result<seq<Chunk>> {
    match r case Ok(rest) => Ok(chunks + rest) case Err(error) => Err(error)
  }

  lemma PrependStep(written: seq<Chunk>, c: Chunk, r: Result<seq<Chunk>>)
    ensures Prepend(written, Prepend([c], r)) == Prepend(written + [c], r)
  {
    if r.Ok? {
      assert written + ([c] + r.value) == (written + [c]) + r.value;
    }
  }

  lemma NoBlocks(img: Image, crc: Crc)
    ensures BlocksText([], crc) == "" && Walk(img, 0) == Prepend([], Walk(img, 0))
  {
    if Walk(img, 0).Ok? {
      assert [] + Walk(img, 0).value == Walk(img, 0).value;
    }
  }

  lemma {:induction false} WalkIsAddressed(img: Image, from: int)
    requires 0 <= from <= ROM_SIZE
    ensures Walk(img, from).Ok? ==> Addressed(Walk(img, from).value)
  {
    if Walk(img, from).Ok? {
      WalkCovers(img, from);
      ChunksStartAfter(img, from, Walk(img, from).value);
    }
  }

  lemma {:induction false} BlocksTextAppend(chunks: seq<Chunk>, c: Chunk, crc: Crc)
    requires Addressed(chunks) && c.addr >= 0
    ensures BlocksText(chunks + [c], crc) == BlocksText(chunks, crc) + (BlockHeader(c, crc) + "\n" + AsText(c.bytes))
    decreases |chunks|
  {
    hide BlockHeader, AsText;
    if chunks == [] {
      assert chunks + [c] == [c];
    } else {
      assert (chunks + [c])[1..] == chunks[1..] + [c];
      BlocksTextAppend(chunks[1..], c, crc);
    }
  }
}
