/** The sparse ROM image of tools/rp6502.py and the walk over its chunks. */
module RomImage {
  import opened Words
  import opened Wrappers

  const ROM_SIZE := 0x2_0000
  const BANK := 0x1_0000
  const CHUNK_MAX := 1024

  datatype Error = IndexError | MemoryError | RuntimeError | ValueError

  datatype Result<+T> = Ok(value: T) | Err(error: Error) {
    predicate IsFailure() {
      Err?
    }

    function PropagateFailure<U>(): Result<U>
      requires Err?
    {
      Err(error)
    }

    function Extract(): T
      requires Ok?
    {
      value
    }
  }

  type Cells = s: seq<Byte> | |s| == ROM_SIZE witness seq(ROM_SIZE, _ => 0)
  type Marks = s: seq<bool> | |s| == ROM_SIZE witness seq(ROM_SIZE, _ => false)

  datatype Image = Image(help: seq<string>, data: Cells, alloc: Marks)

  const EMPTY := Image([], seq(ROM_SIZE, _ => 0), seq(ROM_SIZE, _ => false))

  /** `bytes` are to be loaded from address `addr` on. */
  datatype Chunk = Chunk(addr: int, bytes: seq<Byte>)

  // ---- allocate_rom ----

  predicate InRange(addr: int, length: int) {
    0 <= addr && 0 <= length && addr + length <= ROM_SIZE && !(addr < BANK && addr + length > BANK)
  }

  /** First marked cell of `from`..`end`, else `end`. */
  function FirstMarked(alloc: Marks, from: int, end: int): (r: int)
    requires 0 <= from <= end <= ROM_SIZE
    ensures from <= r <= end && (r < end ==> alloc[r])
    ensures forall i | from <= i < r :: !alloc[i]
    decreases end - from
  {
    if from == end || alloc[from] then from else FirstMarked(alloc, from + 1, end)
  }

  function Mark(alloc: Marks, from: int, end: int): Marks
    requires 0 <= from <= end <= ROM_SIZE
  {
    seq(ROM_SIZE, i requires 0 <= i < ROM_SIZE => from <= i < end || alloc[i])
  }

  lemma MarkOne(alloc: Marks, from: int, end: int)
    requires 0 <= from <= end < ROM_SIZE
    ensures Mark(alloc, from, end)[end := true] == Mark(alloc, from, end + 1)
    ensures Mark(alloc, from, end)[end] == alloc[end]
  {
  }

  lemma MarkNone(alloc: Marks, from: int)
    requires 0 <= from <= ROM_SIZE
    ensures Mark(alloc, from, from) == alloc
  {
  }

  function Allocate(alloc: Marks, addr: int, length: int): Result<Marks> {
    if !InRange(addr, length) then Err(IndexError)
    else if FirstMarked(alloc, addr, addr + length) < addr + length then Err(MemoryError)
    else Ok(Mark(alloc, addr, addr + length))
  }

  function Store(data: Cells, addr: int, bytes: seq<Byte>): Cells
    requires 0 <= addr && addr + |bytes| <= ROM_SIZE
  {
    data[..addr] + bytes + data[addr + |bytes|..]
  }

  // ---- next_rom_data ----

  /** Length of the chunk at `addr`, of which `n` cells are known: up to CHUNK_MAX marked cells,
      not across BANK; -1 when the scan runs off the list. */
  function ChunkLength(alloc: Marks, addr: int, n: int): (r: int)
    requires 0 <= addr && 0 <= n && addr + n <= ROM_SIZE
    decreases ROM_SIZE - n
  {
    if addr + n == ROM_SIZE then -1
    else if !alloc[addr + n] then n
    else if n + 1 == CHUNK_MAX || addr + n + 1 == BANK then n + 1
    else ChunkLength(alloc, addr, n + 1)
  }

  function NextChunk(img: Image, from: int): Result<Option<Chunk>>
    requires 0 <= from
  {
    if from >= ROM_SIZE then Ok(None)
    else
      var addr := FirstMarked(img.alloc, from, ROM_SIZE);
      if addr == ROM_SIZE then Ok(None)
      else
        ChunkShape(img.alloc, addr, 0);
        var length := ChunkLength(img.alloc, addr, 0);
        if length < 0 then Err(IndexError)
        else Ok(Some(Chunk(addr, img.data[addr..addr + length])))
  }

  lemma {:induction false} ChunkShape(alloc: Marks, addr: int, n: int)
    requires 0 <= addr && 0 <= n < CHUNK_MAX && addr + n < ROM_SIZE
    requires forall i | addr <= i < addr + n :: alloc[i]
    requires addr < BANK ==> addr + n < BANK
    ensures var r := ChunkLength(alloc, addr, n);
            && (r < 0 ==> BANK <= addr && ROM_SIZE - addr < CHUNK_MAX && forall i | addr <= i < ROM_SIZE :: alloc[i])
            && (r >= 0 ==> n <= r <= CHUNK_MAX && (alloc[addr + n] ==> n < r) && InRange(addr, r)
                           && (forall i | addr <= i < addr + r :: alloc[i])
                           && (r == CHUNK_MAX || addr + r == BANK || (addr + r < ROM_SIZE && !alloc[addr + r])))
    decreases ROM_SIZE - n
  {
    if alloc[addr + n] && n + 1 != CHUNK_MAX && addr + n + 1 < ROM_SIZE && addr + n + 1 != BANK {
      ChunkShape(alloc, addr, n + 1);
    }
  }

  // ---- The walk ----

  function Walk(img: Image, from: int): Result<seq<Chunk>>
    requires 0 <= from <= ROM_SIZE
    decreases ROM_SIZE - from
  {
    var next :- NextChunk(img, from);
    match next
    case None => Ok([])
    case Some(c) =>
      NextChunkShape(img, from);
      var rest :- Walk(img, c.addr + |c.bytes|);
      Ok([c] + rest)
  }

  /** `c` is the block of allocated cells that comes first from `from` on. */
  predicate Leads(img: Image, from: int, c: Chunk) {
    && from <= c.addr && InRange(c.addr, |c.bytes|) && 0 < |c.bytes| <= CHUNK_MAX
    && c.bytes == img.data[c.addr..c.addr + |c.bytes|]
    && (forall i | from <= i < c.addr :: 0 <= i && !img.alloc[i])
    && (forall i | c.addr <= i < c.addr + |c.bytes| :: img.alloc[i])
  }

  lemma NextChunkShape(img: Image, from: int)
    requires 0 <= from && NextChunk(img, from).Ok?
    ensures match NextChunk(img, from).value
            case Some(c) => Leads(img, from, c)
            case None => forall i | from <= i < ROM_SIZE :: !img.alloc[i]
  {
    if from < ROM_SIZE {
      var addr := FirstMarked(img.alloc, from, ROM_SIZE);
      if addr < ROM_SIZE {
        ChunkShape(img.alloc, addr, 0);
      }
    }
  }

  /** What a complete list of chunks is: consecutive blocks, each nonempty, at most CHUNK_MAX
      long and inside one bank, holding exactly the allocated cells from `from` on. */
  predicate Covers(img: Image, from: int, chunks: seq<Chunk>)
    requires 0 <= from <= ROM_SIZE
    decreases |chunks|
  {
    if chunks == [] then forall i | from <= i < ROM_SIZE :: !img.alloc[i]
    else
      Leads(img, from, chunks[0]) && Covers(img, chunks[0].addr + |chunks[0].bytes|, chunks[1..])
  }

  lemma {:induction false} WalkCovers(img: Image, from: int)
    requires 0 <= from <= ROM_SIZE && Walk(img, from).Ok?
    ensures Covers(img, from, Walk(img, from).value)
    decreases ROM_SIZE - from
  {
    hide NextChunk;
    var next := NextChunk(img, from).value;
    NextChunkShape(img, from);
    if next.Some? {
      WalkCovers(img, next.value.addr + |next.value.bytes|);
      assert Walk(img, from).value[1..] == Walk(img, next.value.addr + |next.value.bytes|).value;
    }
  }

  predicate Holds(c: Chunk, i: int) {
    c.addr <= i < c.addr + |c.bytes|
  }

  /** Read off a cover: the chunks ascend without overlap, and a cell is allocated exactly when
      some chunk holds it, with its byte. */
  lemma {:induction false} CoverIsExact(img: Image, from: int, chunks: seq<Chunk>, i: int)
    requires 0 <= from <= i < ROM_SIZE && Covers(img, from, chunks)
    ensures img.alloc[i] <==> exists k | 0 <= k < |chunks| :: Holds(chunks[k], i)
    ensures forall k | 0 <= k < |chunks| && Holds(chunks[k], i) :: chunks[k].bytes[i - chunks[k].addr] == img.data[i]
    ensures forall j, k | 0 <= j < k < |chunks| :: chunks[j].addr + |chunks[j].bytes| <= chunks[k].addr
    decreases |chunks|
  {
    if chunks != [] {
      var c, rest := chunks[0], chunks[1..];
      var end := c.addr + |c.bytes|;
      ChunksStartAfter(img, end, rest);
      if end < ROM_SIZE {
        CoverIsExact(img, end, rest, if i < end then end else i);
      }
      if i >= end && img.alloc[i] {
        var k :| 0 <= k < |rest| && Holds(rest[k], i);
        assert Holds(chunks[k + 1], i);
      }
      if i < end && img.alloc[i] {
        assert Holds(chunks[0], i);
      }
      forall k | 0 <= k < |chunks| && Holds(chunks[k], i)
        ensures img.alloc[i] && chunks[k].bytes[i - chunks[k].addr] == img.data[i]
      {
        if k > 0 {
          assert Holds(rest[k - 1], i);
        }
      }
      forall j, k | 0 <= j < k < |chunks|
        ensures chunks[j].addr + |chunks[j].bytes| <= chunks[k].addr
      {
        assert chunks[k] == rest[k - 1];
        if j > 0 {
          assert chunks[j] == rest[j - 1];
        }
      }
    }
  }

  lemma {:induction false} ChunksStartAfter(img: Image, from: int, chunks: seq<Chunk>)
    requires 0 <= from <= ROM_SIZE && Covers(img, from, chunks)
    ensures forall k | 0 <= k < |chunks| :: from <= chunks[k].addr && chunks[k].addr < ROM_SIZE
    decreases |chunks|
  {
    if chunks != [] {
      ChunksStartAfter(img, chunks[0].addr + |chunks[0].bytes|, chunks[1..]);
      forall k | 0 < k < |chunks| ensures from <= chunks[k].addr && chunks[k].addr < ROM_SIZE {
        assert chunks[k] == chunks[1..][k - 1];
      }
    }
  }

  // ---- Exactly which images can be walked ----

  /** Start of the marked run that ends just below `end`, within the upper bank. */
  function RunStart(alloc: Marks, end: int): (r: int)
    requires BANK <= end <= ROM_SIZE
    ensures BANK <= r <= end && (r > BANK ==> !alloc[r - 1])
    ensures forall i | r <= i < end :: alloc[i]
  {
    if end > BANK && alloc[end - 1] then RunStart(alloc, end - 1) else end
  }

  predicate WholeChunks(n: int) {
    n % CHUNK_MAX == 0
  }

  lemma CountingChunks(n: int)
    ensures WholeChunks(n) <==> WholeChunks(n - CHUNK_MAX)
    ensures WholeChunks(0) && (0 < n < CHUNK_MAX ==> !WholeChunks(n))
  {
  }

  /** The scan runs off the list exactly when the run that reaches the end of the image is not a
      whole number of full chunks, counted from where it starts or from where the walk enters it. */
  lemma {:induction false} WalkSucceedsFrom(img: Image, from: int)
    requires 0 <= from <= ROM_SIZE
    ensures var top := RunStart(img.alloc, ROM_SIZE);
            Walk(img, from).Ok? <==> WholeChunks(ROM_SIZE - (if from < top then top else from))
    decreases ROM_SIZE - from
  {
    hide RunStart, FirstMarked, ChunkLength, WholeChunks;
    var top := RunStart(img.alloc, ROM_SIZE);
    CountingChunks(ROM_SIZE - if from < top then top else from);
    if from < ROM_SIZE {
      var addr := FirstMarked(img.alloc, from, ROM_SIZE);
      if addr < ROM_SIZE {
        ChunkShape(img.alloc, addr, 0);
        var length := ChunkLength(img.alloc, addr, 0);
        if length >= 0 {
          NextStop(img, from, addr, length);
          WalkSucceedsFrom(img, addr + length);
        } else {
          assert top <= addr;
          EntersTopRun(img, from, addr);
        }
      } else {
        assert !img.alloc[ROM_SIZE - 1];
      }
    }
  }

  /** Below the top run a chunk ends at or before it; inside, chunks are full. */
  lemma NextStop(img: Image, from: int, addr: int, length: int)
    requires 0 <= from <= addr < ROM_SIZE && 0 < length && InRange(addr, length)
    requires forall i | from <= i < addr :: !img.alloc[i]
    requires forall i | addr <= i < addr + length :: img.alloc[i]
    requires length == CHUNK_MAX || addr + length == BANK || (addr + length < ROM_SIZE && !img.alloc[addr + length])
    ensures var top := RunStart(img.alloc, ROM_SIZE);
            var s, e := if from < top then top else from, addr + length;
            (if e < top then top else e) == (if addr < top then s else s + CHUNK_MAX)
  {
    EntersTopRun(img, from, addr);
  }

  lemma EntersTopRun(img: Image, from: int, addr: int)
    requires 0 <= from <= addr < ROM_SIZE
    requires forall i | from <= i < addr :: !img.alloc[i]
    ensures var top := RunStart(img.alloc, ROM_SIZE);
            addr >= top ==> addr == if from < top then top else from
  {
    var top := RunStart(img.alloc, ROM_SIZE);
    if addr >= top {
      var cell := img.alloc[if from < top then top else from];
    }
  }

  /** The image can be written, or sent, exactly when its top cell is free or the run that
      reaches it is a whole number of 1024-byte chunks. */
  lemma WalkableExactly(img: Image)
    ensures Walk(img, 0).Ok? <==> (0x2_0000 - RunStart(img.alloc, 0x2_0000)) % 1024 == 0
  {
    WalkSucceedsFrom(img, 0);
  }
}
