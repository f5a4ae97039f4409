/** Reading the blocks of a compressed data model: skip the leading ones, patch and decompress the
    rest. One loop for a single-threaded file, a head and a tail loop for a multi-threaded one. */
module Blocks {
  import opened Machine
  import opened Files
  import opened Header

  const BLOCK_SIZE: nat := 0x20_0000
  const SIGNATURE_BYTES: nat := 102
  const METADATA_BYTES: nat := 40

  /** The decompressor, not modelled further: what it makes of the last of all the blocks it has
      been handed. */
  type Decoder = seq<seq<byte>> -> Result<seq<byte>>

  class XPress9Wrapper {
    const decode: Decoder
    var fed: seq<seq<byte>>

    constructor (d: Decoder)
      ensures decode == d && fed == []
    {
      decode, fed := d, [];
    }

    method Decompress(block: seq<byte>) returns (r: Result<seq<byte>>)
      modifies this`fed
      ensures fed == old(fed) + [block] && r == decode(fed)
    {
      fed := fed + [block];
      r := decode(fed);
    }
  }

  // ----- the loops as functions of the file

  /** What stays the same in a run: the file, where the model lies in it, how many blocks there are
      taken to be, how many of the last to keep, and the signature to patch in. */
  datatype Setup = Setup(data: seq<byte>, ofs: nat, size: nat, total: uint64, trailing: int,
                         signature: Option<uint32>, decode: Decoder)

  /** The variables the loops update. */
  datatype State = State(bytesRead: nat, blockIndex: nat, blockIndexIterator: uint32, skipOffset: nat,
                         fed: seq<seq<byte>>, kept: seq<byte>)

  /** The skip test; the `int` setting is compared as an unsigned number. */
  predicate Skips(total: uint64, trailing: int, index: nat) {
    total > Wrap64(trailing) && index < total - Wrap64(trailing)
  }

  function RecordAt(c: Setup, bytesRead: nat): (uint32, uint32) {
    (U32At(c.data, c.ofs + bytesRead), U32At(c.data, c.ofs + bytesRead + 4))
  }

  /** One iteration. */
  function BlockStep(c: Setup, s: State): Result<State>
  {
    var (uncompressed, compressed) := RecordAt(c, s.bytesRead);
    var after := s.bytesRead + 8;
    if Skips(c.total, c.trailing, s.blockIndex + 1) then
      Returned(State(after + compressed, s.blockIndex + 1, s.blockIndexIterator, s.skipOffset + uncompressed,
                     s.fed, s.kept))
    else
      var block := BytesAt(c.data, c.ofs + after, compressed);
      var fed := s.fed + [Patched(block, Wrap32(s.blockIndexIterator + 1), c.signature)];
      match c.decode(fed)
      case Threw => Threw
      case Returned(bytes) =>
        if |bytes| != uncompressed then Threw
        else Returned(State(after + compressed, s.blockIndex + 1, Wrap32(s.blockIndexIterator + 1), s.skipOffset, fed,
                              s.kept + bytes))
  }

  /** At most `n` iterations, while bytes remain. */
  function WalkBlocks(c: Setup, s: State, n: nat): Result<State>
    decreases n
  {
    if n == 0 || s.bytesRead >= c.size then Returned(s)
    else match BlockStep(c, s)
      case Threw => Threw
      case Returned(next) => WalkBlocks(c, next, n - 1)
  }

  // ----- the loops as the source runs them

  /** The cursor stands where the count says, or both are past the end of the file, where there is
      nothing left to read. */
  predicate Coherent(file: FileHandle, ofs: nat, bytesRead: nat)
    reads file
  {
    file.pos == ofs + bytesRead || (file.pos >= |file.data| && ofs + bytesRead >= |file.data|)
  }

  lemma CoherentBytes(data: seq<byte>, a: nat, b: nat, n: nat)
    requires a == b || (a >= |data| && b >= |data|)
    ensures BytesAt(data, a, n) == BytesAt(data, b, n)
  {
  }

  method ReadU32(file: FileHandle, ghost ofs: nat, bytesRead: nat) returns (w: uint32)
    requires Coherent(file, ofs, bytesRead)
    modifies file`pos
    ensures w == U32At(file.data, ofs + bytesRead) && Coherent(file, ofs, bytesRead + 4)
  {
    CoherentBytes(file.data, file.pos, ofs + bytesRead, 4);
    var b := file.Read(4);
    LeWidth(b);
    w := LeValue(b);
  }

  /** The body the three loops share. */
  method ProcessBlock(c: Setup, file: FileHandle, wrapper: XPress9Wrapper, s: State) returns (r: Result<State>)
    requires file.data == c.data && wrapper.decode == c.decode && wrapper.fed == s.fed
    requires Coherent(file, c.ofs, s.bytesRead)
    modifies file`pos, wrapper`fed
    ensures r == BlockStep(c, s)
    ensures r.Returned? ==> Coherent(file, c.ofs, r.value.bytesRead) && wrapper.fed == r.value.fed
  {
    hide LeValue, Patched, BytesAt;
    var bytesRead: nat := s.bytesRead;
    var uncompressedSize := ReadU32(file, c.ofs, bytesRead);
    var compressedSize := ReadU32(file, c.ofs, bytesRead + 4);
    bytesRead := bytesRead + 8;
    if Skips(c.total, c.trailing, s.blockIndex + 1) {
      bytesRead := bytesRead + compressedSize;
      file.Seek(c.ofs + bytesRead);
      return Returned(State(bytesRead, s.blockIndex + 1, s.blockIndexIterator, s.skipOffset + uncompressedSize,
                            s.fed, s.kept));
    }
    CoherentBytes(c.data, file.pos, c.ofs + bytesRead, compressedSize);
    var block := file.Read(compressedSize);
    bytesRead := bytesRead + compressedSize;
    var compressedBuffer := new byte[compressedSize](i requires 0 <= i < |block| => block[i]);
    assert compressedBuffer[..] == block;
    var next := PatchHeaderOfCompressedBuffer(compressedBuffer, s.blockIndexIterator, c.signature);
    var decompressed := wrapper.Decompress(compressedBuffer[..]);
    if decompressed.Threw? {
      return Threw;
    }
    if |decompressed.value| != uncompressedSize {
      return Threw;
    }
    r := Returned(State(bytesRead, s.blockIndex + 1, next, s.skipOffset, wrapper.fed, s.kept + decompressed.value));
  }

  lemma StepMoves(c: Setup, s: State)
    ensures BlockStep(c, s).Returned? ==> BlockStep(c, s).value.bytesRead >= s.bytesRead + 8
  {
  }

  function TotalBlocks(headerOffset: uint64, dataSize: uint64): uint64 {
    Wrap64(dataSize + headerOffset) / BLOCK_SIZE
  }

  /** `iterate_and_decompress_blocks`. */
  method IterateAndDecompressBlocks(c: Setup, file: FileHandle, wrapper: XPress9Wrapper, bytesRead: nat)
    returns (r: Result<State>)
    requires file.data == c.data && wrapper.decode == c.decode
    requires Coherent(file, c.ofs, bytesRead)
    modifies file`pos, wrapper`fed
    ensures r == WalkBlocks(c, State(bytesRead, 0, 0, 0, old(wrapper.fed), []), c.size)
    ensures r.Returned? ==> wrapper.fed == r.value.fed
  {
    hide BlockStep;
    var s := State(bytesRead, 0, 0, 0, wrapper.fed, []);
    ghost var start := s;
    ghost var left := c.size;
    while s.bytesRead < c.size
      invariant wrapper.fed == s.fed && Coherent(file, c.ofs, s.bytesRead)
      invariant c.size <= s.bytesRead + left
      invariant WalkBlocks(c, start, c.size) == WalkBlocks(c, s, left)
      decreases c.size - s.bytesRead
    {
      StepMoves(c, s);
      var next := ProcessBlock(c, file, wrapper, s);
      if next.Threw? {
        return Threw;
      }
      s := next.value;
      left := left - 1;
    }
    r := Returned(s);
  }

  /** One counted loop of `iterate_and_decompress_chunks_multithread`. */
  method ChunkLoop(c: Setup, file: FileHandle, wrapper: XPress9Wrapper, start: State, count: nat)
    returns (r: Result<State>)
    requires file.data == c.data && wrapper.decode == c.decode && wrapper.fed == start.fed
    requires Coherent(file, c.ofs, start.bytesRead)
    modifies file`pos, wrapper`fed
    ensures r == WalkBlocks(c, start, count)
    ensures r.Returned? ==>
              Coherent(file, c.ofs, r.value.bytesRead) && wrapper.fed == r.value.fed
  {
    hide BlockStep;
    var s := start;
    var i := 0;
    while i < count && s.bytesRead < c.size
      invariant i <= count
      invariant wrapper.fed == s.fed && Coherent(file, c.ofs, s.bytesRead)
      invariant WalkBlocks(c, start, count) == WalkBlocks(c, s, count - i)
    {
      StepMoves(c, s);
      var next := ProcessBlock(c, file, wrapper, s);
      if next.Threw? {
        return Threw;
      }
      s := next.value;
      i := i + 1;
    }
    r := Returned(s);
  }

  /** The head loop and the tail loop are one loop over as many chunks together. */
  lemma {:induction false} LoopsFuse(c: Setup, s: State, head: nat, tail: nat)
    ensures WalkBlocks(c, s, head + tail)
         == match WalkBlocks(c, s, head)
            case Threw => Threw
            case Returned(between) => WalkBlocks(c, between, tail)
    decreases head
  {
    hide BlockStep;
    if head == 0 || s.bytesRead >= c.size {
    } else {
      StepMoves(c, s);
      if BlockStep(c, s).Returned? {
        LoopsFuse(c, BlockStep(c, s).value, head - 1, tail);
      }
    }
  }

  /** `iterate_and_decompress_chunks_multithread`: the head loop, then the tail loop. */
  method IterateAndDecompressChunks(c: Setup, file: FileHandle, wrapper: XPress9Wrapper, bytesRead: nat,
                                    headChunks: nat, tailChunks: nat)
    returns (r: Result<State>)
    requires file.data == c.data && wrapper.decode == c.decode
    requires Coherent(file, c.ofs, bytesRead)
    modifies file`pos, wrapper`fed
    ensures r == WalkBlocks(c, State(bytesRead, 0, 0, 0, old(wrapper.fed), []), headChunks + tailChunks)
    ensures r.Returned? ==> wrapper.fed == r.value.fed
  {
    hide WalkBlocks;
    var s := State(bytesRead, 0, 0, 0, wrapper.fed, []);
    LoopsFuse(c, s, headChunks, tailChunks);
    var head := ChunkLoop(c, file, wrapper, s, headChunks);
    if head.Threw? {
      return Threw;
    }
    r := ChunkLoop(c, file, wrapper, head.value, tailChunks);
  }

  // ----- what was walked

  /** The sizes of the records in the file, from `bytesRead` on: uncompressed and compressed. */
  function Records(c: Setup, bytesRead: nat, n: nat): seq<(uint32, uint32)>
    decreases n
  {
    if n == 0 || bytesRead >= c.size then []
    else [RecordAt(c, bytesRead)] + Records(c, bytesRead + 8 + RecordAt(c, bytesRead).1, n - 1)
  }

  function UncompressedSum(records: seq<(uint32, uint32)>): nat {
    if records == [] then 0 else records[0].0 + UncompressedSum(records[1..])
  }

  /** The length of the records in the file. */
  function RecordBytes(records: seq<(uint32, uint32)>): nat {
    if records == [] then 0 else 8 + records[0].1 + RecordBytes(records[1..])
  }

  lemma StepAccounts(c: Setup, s: State)
    requires BlockStep(c, s).Returned?
    ensures var next, (uncompressed, compressed) := BlockStep(c, s).value, RecordAt(c, s.bytesRead);
            next.bytesRead == s.bytesRead + 8 + compressed && next.blockIndex == s.blockIndex + 1
            && next.skipOffset + |next.kept| == s.skipOffset + |s.kept| + uncompressed
  {
    hide Patched, RecordAt, BytesAt, Skips;
  }

  /** Of any file, whatever the decompressor makes of it: as long as nothing throws, every record is
      walked once, the position counts their bytes, and what was skipped and what was kept add up to
      their uncompressed sizes. */
  lemma {:induction false} WalkAccounts(c: Setup, s: State, n: nat)
    requires WalkBlocks(c, s, n).Returned?
    ensures var end, records := WalkBlocks(c, s, n).value, Records(c, s.bytesRead, n);
            end.bytesRead == s.bytesRead + RecordBytes(records) && end.blockIndex == s.blockIndex + |records|
            && end.skipOffset + |end.kept| == s.skipOffset + |s.kept| + UncompressedSum(records)
    decreases n
  {
    hide BlockStep, RecordAt;
    if n == 0 || s.bytesRead >= c.size {
    } else {
      StepAccounts(c, s);
      var next := BlockStep(c, s).value;
      WalkAccounts(c, next, n - 1);
      assert Records(c, s.bytesRead, n)[1..] == Records(c, next.bytesRead, n - 1);
    }
  }
}
