/** The SRAM of the cartridge slot as a byte stream: one cursor over a
    256 KiB region, opened for reading or for writing, and closed once. */
module Sram {
  import opened Base

  /** The bytes from `SRAM_START` up to and including `SRAM_END`. */
  const SramSize: nat := 0x4_0000

  datatype FileState = Reading | Writing | Closed

  /** The stream: what the SRAM holds, the offset of the cursor from
      `SRAM_START`, and the mode. */
  datatype SramFile = SramFile(mem: seq<byte>, cursor: nat, state: FileState)

  predicate Valid(f: SramFile)
  {
    |f.mem| == SramSize && f.cursor <= SramSize
  }

  /** The constructor: the cursor at the start of SRAM, in the mode asked
      for. The file name plays no part. */
  function Open(mem: seq<byte>, write: bool): (f: SramFile)
    requires |mem| == SramSize
    ensures Valid(f) && f.mem == mem && f.cursor == 0
    ensures f.state != Closed
    ensures f.state == Writing <==> write
  {
    SramFile(mem, 0, if write then Writing else Reading)
  }

  /** How many bytes a read of `length` bytes copies: no more than remain
      before the end of SRAM. */
  function Clamped(f: SramFile, length: nat): (n: nat)
    requires Valid(f)
    ensures n <= length && f.cursor + n <= SramSize
    ensures n == length || f.cursor + n == SramSize
  {
    Min(length, SramSize - f.cursor)
  }

  /** `Read`: the bytes under the cursor, as many as asked for or as remain,
      and the stream with its cursor moved past them. */
  function Read(f: SramFile, length: nat): (r: Result<(SramFile, seq<byte>)>)
    requires Valid(f)
    ensures r.Err? <==> f.state != Reading
    ensures r.Err? ==> r.failure == IllegalState
    ensures r.Ok? ==> var (g, data) := r.value;
      && Valid(g) && g.mem == f.mem && g.state == f.state
      && |data| <= length
      && (|data| == length || g.cursor == SramSize)
      && g.cursor == f.cursor + |data|
      && data == f.mem[f.cursor..g.cursor]
  {
    if f.state != Reading then Err(IllegalState)
    else
      var n := Clamped(f, length);
      Ok((f.(cursor := f.cursor + n), f.mem[f.cursor..f.cursor + n]))
  }

  /** `Write`: refused outside write mode, refused whole when it would pass
      the end of SRAM, and otherwise stores `data` under the cursor and moves
      the cursor past it. */
  function Write(f: SramFile, data: seq<byte>): (r: Result<SramFile>)
    requires Valid(f)
    ensures f.state != Writing ==> r == Err(IllegalState)
    ensures f.state == Writing && f.cursor + |data| > SramSize ==> r == Err(WriteOutsideSram)
    ensures r.Ok? <==> f.state == Writing && f.cursor + |data| <= SramSize
    ensures r.Ok? ==> var g := r.value;
      && Valid(g) && g.state == f.state
      && g.cursor == f.cursor + |data|
      && g.mem[f.cursor..g.cursor] == data
      && (forall i :: 0 <= i < |f.mem| && !(f.cursor <= i < g.cursor) ==> g.mem[i] == f.mem[i])
  {
    if f.state != Writing then Err(IllegalState)
    else if f.cursor + |data| > SramSize then Err(WriteOutsideSram)
    else
      var end := f.cursor + |data|;
      Ok(f.(mem := f.mem[..f.cursor] + data + f.mem[end..], cursor := end))
  }

  /** `Close`: the stream refuses further reads and writes. */
  function Close(f: SramFile): (g: SramFile)
    ensures g.state == Closed && g.mem == f.mem && g.cursor == f.cursor
  {
    f.(state := Closed)
  }

  /** The destructor: closes the stream unless it is closed already. */
  function Release(f: SramFile): (g: SramFile)
    ensures g.state == Closed && g.mem == f.mem && g.cursor == f.cursor
  {
    if f.state != Closed then Close(f) else f
  }

  /** A closed stream refuses both reads and writes. */
  lemma ClosedRefusesIO(f: SramFile, length: nat, data: seq<byte>)
    requires Valid(f)
    ensures Read(Close(f), length) == Err(IllegalState)
    ensures Write(Close(f), data) == Err(IllegalState)
  {
  }

  /** Destroying a stream that was closed changes nothing, and destroying it
      twice is destroying it once. */
  lemma ReleaseAfterClose(f: SramFile)
    ensures Release(Close(f)) == Close(f)
    ensures Release(Release(f)) == Release(f)
  {
  }

  /** Two reads in a row return what one read of both lengths returns. */
  lemma ReadsConcatenate(f: SramFile, m: nat, n: nat)
    requires Valid(f) && f.state == Reading
    ensures var (g, a) := Read(f, m).value;
            var (h, b) := Read(g, n).value;
            Read(f, m + n) == Ok((h, a + b))
  {
    var (g, a) := Read(f, m).value;
    var (h, b) := Read(g, n).value;
    assert f.mem[f.cursor..g.cursor] + f.mem[g.cursor..h.cursor] == f.mem[f.cursor..h.cursor];
  }

  /** Two writes in a row store what one write of both blocks stores. */
  lemma WritesConcatenate(f: SramFile, a: seq<byte>, b: seq<byte>)
    requires Valid(f) && f.state == Writing && f.cursor + |a| + |b| <= SramSize
    ensures Write(f, a).Ok? && Write(Write(f, a).value, b) == Write(f, a + b)
  {
    var g := Write(f, a).value;
    var h := Write(g, b).value;
    var k := Write(f, a + b).value;
    assert h.mem == k.mem;
  }

  /** What a transfer writes from the start of SRAM, a later transfer reads
      back from the start. */
  lemma WriteThenRead(mem: seq<byte>, data: seq<byte>)
    requires |mem| == SramSize && |data| <= SramSize
    ensures var g := Write(Open(mem, true), data).value;
            Read(Open(g.mem, false), |data|).value.1 == data
  {
  }
}
