/** The tail of `get_sqlite`: the initial block, the window behind it, and ranges of the model
    addressed in the window by `offset - skip_offset`. */
module WindowedRead {
  import opened Machine
  import opened Files
  import opened Header
  import opened Blocks
  import opened Window

  type Payload = seq<byte> -> seq<byte>

  /** What the backup log header in the initial block says: where the virtual directory lies. */
  datatype Directory = Directory(offset: uint64, size: uint64)

  // ----- `read_buffer_bytes`

  /** The sum of the bounds check is taken modulo 2^64, so a wrapped offset may pass it and read
      outside the buffer. */
  function ReadRange(buffer: seq<byte>, offset: uint64, size: int): Result<Outcome<seq<byte>>> {
    if size < 0 || Wrap64(offset + size) > |buffer| then Threw
    else if offset + size > |buffer| then Returned(Undefined)
    else Returned(Defined(buffer[offset..offset + size]))
  }

  method ReadBufferBytes(buffer: seq<byte>, offset: uint64, size: int) returns (r: Result<Outcome<seq<byte>>>)
    ensures r == ReadRange(buffer, offset, size)
    ensures r.Threw? <==> size < 0 || (offset + size) % 0x1_0000_0000_0000_0000 > |buffer|
    ensures r.Returned? ==> (r.value.Defined? <==> offset + size <= |buffer|)
    ensures r.Returned? && r.value.Defined? ==> r.value.value == buffer[offset..offset + size]
  {
    if size < 0 || Wrap64(offset + size) > |buffer| {
      return Threw;
    }
    if offset + size > |buffer| {
      return Returned(Undefined);
    }
    var subBuffer: seq<byte> := [];
    for i := 0 to size
      invariant subBuffer == buffer[offset..offset + i]
    {
      subBuffer := subBuffer + [buffer[offset + i]];
    }
    r := Returned(Defined(subBuffer));
  }

  // ----- the window and the whole model

  function Model(initial: seq<byte>, bs: seq<Block>, payload: Payload): seq<byte> {
    initial + Payloads(bs, payload)
  }

  /** The buffer after `k` blocks have been skipped. */
  function Kept(initial: seq<byte>, bs: seq<Block>, k: nat, payload: Payload): seq<byte>
    requires k <= |bs|
  {
    initial + Payloads(bs[k..], payload)
  }

  /** A range of the model as the program reads it from the window: the offset is reduced in 64 bits,
      and the size, a 64-bit number of the directory, becomes an `int`. */
  function WindowRead(initial: seq<byte>, bs: seq<Block>, k: nat, payload: Payload, offset: nat, size: nat)
    : Result<Outcome<seq<byte>>>
    requires k <= |bs|
  {
    ReadRange(Kept(initial, bs, k, payload), Wrap64(offset - SizeSum(bs[..k])), ToInt32(size))
  }

  /** The read gives the range of the fully decompressed model. */
  predicate ReadsRight(initial: seq<byte>, bs: seq<Block>, k: nat, payload: Payload, offset: nat, size: nat)
    requires k <= |bs| && offset + size <= |Model(initial, bs, payload)|
  {
    WindowRead(initial, bs, k, payload, offset, size)
    == Returned(Defined(Model(initial, bs, payload)[offset..offset + size]))
  }

  predicate SizesRight(bs: seq<Block>, payload: Payload) {
    forall i :: 0 <= i < |bs| ==> |payload(bs[i].bytes)| == bs[i].uncompressedSize
  }

  lemma {:induction false} PayloadsSplit(bs: seq<Block>, k: nat, payload: Payload)
    requires k <= |bs| && SizesRight(bs, payload)
    ensures Payloads(bs, payload) == Payloads(bs[..k], payload) + Payloads(bs[k..], payload)
    ensures |Payloads(bs[..k], payload)| == SizeSum(bs[..k])
  {
    if k == 0 {
      assert bs[0..] == bs;
      assert [] + Payloads(bs, payload) == Payloads(bs, payload);
    } else {
      PayloadsSplit(bs[1..], k - 1, payload);
      assert bs[1..][k - 1..] == bs[k..];
      assert bs[..k][1..] == bs[1..][..k - 1];
    }
  }

  /** The place in the model of a byte of the window. */
  function SourceOf(initialSize: nat, skip: nat, position: nat): nat {
    if position < initialSize then position else position + skip
  }

  /** Every byte of the window is the byte of the model at its place. */
  lemma KeptFromModel(initial: seq<byte>, bs: seq<Block>, k: nat, payload: Payload, position: nat)
    requires k <= |bs| && SizesRight(bs, payload) && position < |Kept(initial, bs, k, payload)|
    ensures SourceOf(|initial|, SizeSum(bs[..k]), position) < |Model(initial, bs, payload)|
    ensures Kept(initial, bs, k, payload)[position]
         == Model(initial, bs, payload)[SourceOf(|initial|, SizeSum(bs[..k]), position)]
  {
    PayloadsSplit(bs, k, payload);
  }

  /** The windowed read refines the full read: a range of the model that starts behind the skipped
      blocks, or any range when none is skipped, is what the read of the window returns, if and only
      if its size fits the `int` it is passed as. */
  lemma WindowedReadIsFullRead(initial: seq<byte>, bs: seq<Block>, k: nat, payload: Payload, offset: nat, size: nat)
    requires k <= |bs| && SizesRight(bs, payload)
    requires |Model(initial, bs, payload)| < TWO_64 && offset + size <= |Model(initial, bs, payload)|
    requires SizeSum(bs[..k]) == 0 || offset >= |initial| + SizeSum(bs[..k])
    ensures ReadsRight(initial, bs, k, payload, offset, size) <==> size < 0x8000_0000
  {
    hide Kept, Model;
    if size < 0x8000_0000 {
      KeptSlice(initial, bs, k, payload, offset, size);
      SmallWraps(offset - SizeSum(bs[..k]), size, |Kept(initial, bs, k, payload)|);
    } else {
      LargeSizeFails(Kept(initial, bs, k, payload), Wrap64(offset - SizeSum(bs[..k])), size);
      assert |Model(initial, bs, payload)[offset..offset + size]| == size;
    }
  }

  /** A size of 2^31 or more arrives negative or cut short. */
  lemma LargeSizeFails(buffer: seq<byte>, offset: uint64, size: nat)
    requires size >= 0x8000_0000
    ensures forall r :: ReadRange(buffer, offset, ToInt32(size)) == Returned(Defined(r)) ==> |r| != size
  {
  }

  lemma KeptSlice(initial: seq<byte>, bs: seq<Block>, k: nat, payload: Payload, offset: nat, size: nat)
    requires k <= |bs| && SizesRight(bs, payload) && offset + size <= |Model(initial, bs, payload)|
    requires SizeSum(bs[..k]) == 0 || offset >= |initial| + SizeSum(bs[..k])
    ensures 0 <= offset - SizeSum(bs[..k])
    ensures |Model(initial, bs, payload)| == |Kept(initial, bs, k, payload)| + SizeSum(bs[..k])
    ensures Kept(initial, bs, k, payload)[offset - SizeSum(bs[..k])..offset - SizeSum(bs[..k]) + size]
         == Model(initial, bs, payload)[offset..offset + size]
  {
    hide SizeSum, SizesRight, Payloads;
    var skip := SizeSum(bs[..k]);
    var kept, model := Kept(initial, bs, k, payload), Model(initial, bs, payload);
    PayloadsSplit(bs, k, payload);
    forall p | offset - skip <= p < offset - skip + size
      ensures kept[p] == model[p + skip]
    {
      KeptFromModel(initial, bs, k, payload, p);
    }
    assert kept[offset - skip..offset - skip + size] == model[offset..offset + size];
  }

  lemma SmallWraps(a: nat, b: nat, limit: nat)
    requires a + b <= limit < TWO_64
    ensures Wrap64(a) == a && Wrap64(a + b) == a + b
  {
  }

  /** A range that starts before the skip offset is never returned: the difference wraps. */
  lemma BeforeSkipFails(buffer: seq<byte>, offset: nat, skip: nat, size: nat)
    requires offset < skip < TWO_64 && |buffer| < TWO_64 - skip
    ensures var r := ReadRange(buffer, Wrap64(offset - skip), ToInt32(size));
            r.Threw? || r.value.Undefined?
  {
    var wrapped: nat := Wrap64(offset - skip);
    assert wrapped == offset - skip + TWO_64;
    var taken := ToInt32(size);
    if 0 <= taken < skip - offset {
      assert Wrap64(wrapped + taken) == wrapped + taken;
    }
  }

  /** An initial block by whose bytes the read shows: `mark` at one place and `other` elsewhere. */
  function Telling(n: nat, place: nat, mark: byte, other: byte): (initial: seq<byte>)
    ensures |initial| == n
  {
    seq(n, i requires 0 <= i < n => if i == place then mark else other)
  }

  /** A range that starts inside the skipped blocks or before them is read wrong for some initial
      block of any size. */
  lemma WrongPlace(n: nat, bs: seq<Block>, k: nat, payload: Payload, offset: nat, size: nat)
    returns (initial: seq<byte>)
    requires k <= |bs| && SizesRight(bs, payload) && size > 0
    requires n + |Payloads(bs, payload)| < TWO_64 && offset + size <= n + |Payloads(bs, payload)|
    requires 0 < SizeSum(bs[..k]) && offset < n + SizeSum(bs[..k])
    ensures |initial| == n
    ensures !ReadsRight(initial, bs, k, payload, offset, size)
  {
    var skip := SizeSum(bs[..k]);
    PayloadsSplit(bs, k, payload);
    if offset < skip {
      initial := Telling(n, 0, 0, 0);
      BeforeSkipFails(Kept(initial, bs, k, payload), offset, skip, size);
    } else {
      var place := offset - skip;
      var there: byte := if offset < n then 0 else Payloads(bs, payload)[offset - n];
      var mark: byte := if there == 0 then 1 else 0;
      initial := Telling(n, place, mark, there);
      var range := Model(initial, bs, payload)[offset..offset + size];
      assert range != [] && range[0] == there;
      assert Kept(initial, bs, k, payload)[place] == mark;
      FirstByte(Kept(initial, bs, k, payload), place, size);
      assert Wrap64(offset - skip) == place;
    }
  }

  /** A read that returns something returns it from its offset on. */
  lemma FirstByte(buffer: seq<byte>, offset: uint64, size: nat)
    requires offset < |buffer| < TWO_64
    ensures forall r :: ReadRange(buffer, offset, ToInt32(size)) == Returned(Defined(r)) && r != [] ==>
              r[0] == buffer[offset]
  {
  }

  /** Addressing by `offset - skip` is right, for every initial block of a size, if and only if the
      size of the range fits its `int` and nothing was skipped or the range starts behind what was. */
  lemma AddressingIff(n: nat, bs: seq<Block>, k: nat, payload: Payload, offset: nat, size: nat)
    requires k <= |bs| && SizesRight(bs, payload) && size > 0
    requires n + |Payloads(bs, payload)| < TWO_64 && offset + size <= n + |Payloads(bs, payload)|
    ensures (forall initial: seq<byte> :: |initial| == n ==> ReadsRight(initial, bs, k, payload, offset, size))
        <==> size < 0x8000_0000 && (SizeSum(bs[..k]) == 0 || offset >= n + SizeSum(bs[..k]))
  {
    hide ReadsRight;
    if SizeSum(bs[..k]) == 0 || offset >= n + SizeSum(bs[..k]) {
      forall initial: seq<byte> | |initial| == n
        ensures ReadsRight(initial, bs, k, payload, offset, size) <==> size < 0x8000_0000
      {
        WindowedReadIsFullRead(initial, bs, k, payload, offset, size);
      }
      assert |Telling(n, 0, 0, 0)| == n;
    } else {
      var initial := WrongPlace(n, bs, k, payload, offset, size);
    }
  }

  /** The window is large enough: with blocks of at most 2 MiB, every place no earlier than
      `trailing` blocks before the end of the virtual directory lies behind what was skipped,
      although the number of blocks is rounded down and counts the initial one. */
  lemma WindowBound(initial: seq<byte>, bs: seq<Block>, d: Directory, trailing: int, position: nat)
    requires 0 <= trailing < 0x8000_0000 && d.offset + d.size < TWO_64
    requires |initial| <= 0x20_0000 && forall i :: 0 <= i < |bs| ==> bs[i].uncompressedSize <= 0x20_0000
    requires d.offset + d.size - trailing * 0x20_0000 <= position
    ensures var k := SkipCount(TotalBlocks(d.offset, d.size), trailing, |bs|);
            SizeSum(bs[..k]) == 0 || position >= |initial| + SizeSum(bs[..k])
  {
    var total := TotalBlocks(d.offset, d.size);
    var k := SkipCount(total, trailing, |bs|);
    SizeSumBound(bs[..k]);
    assert total * 0x20_0000 <= d.offset + d.size;
    if k > 0 {
      assert k <= total - trailing - 1;
      assert k * 0x20_0000 + 0x20_0000 <= total * 0x20_0000 - trailing * 0x20_0000;
    }
  }

  lemma {:induction false} SizeSumBound(bs: seq<Block>)
    requires forall i :: 0 <= i < |bs| ==> bs[i].uncompressedSize <= 0x20_0000
    ensures SizeSum(bs) <= |bs| * 0x20_0000
  {
    if bs == [] {
    } else {
      SizeSumBound(bs[1..]);
    }
  }

  /** Reading from the window is reading from the model, for every range in the last `trailing`
      blocks before the end of the virtual directory, if and only if its size fits its `int`. */
  lemma TrailingRangesRead(initial: seq<byte>, bs: seq<Block>, d: Directory, trailing: int, payload: Payload,
                           offset: nat, size: nat)
    requires 0 <= trailing < 0x8000_0000 && d.offset + d.size < TWO_64
    requires |initial| <= 0x20_0000 && forall i :: 0 <= i < |bs| ==> bs[i].uncompressedSize <= 0x20_0000
    requires SizesRight(bs, payload) && |Model(initial, bs, payload)| < TWO_64
    requires d.offset + d.size - trailing * 0x20_0000 <= offset && offset + size <= |Model(initial, bs, payload)|
    ensures ReadsRight(initial, bs, SkipCount(TotalBlocks(d.offset, d.size), trailing, |bs|), payload, offset, size)
        <==> size < 0x8000_0000
  {
    hide ReadsRight, Model, SkipCount;
    WindowBound(initial, bs, d, trailing, offset);
    var k := SkipCount(TotalBlocks(d.offset, d.size), trailing, |bs|);
    WindowedReadIsFullRead(initial, bs, k, payload, offset, size);
  }

  /** Of a multi-threaded file that holds as many chunks as its metadata says, the first included,
      exactly the last `trailing` are kept, or all of the others when there are not that many. */
  lemma KeepsTrailing(total: uint64, trailing: int, n: nat)
    requires 0 <= trailing < 0x8000_0000 && total == n + 1
    ensures n - SkipCount(total, trailing, n) == Min(trailing, n)
  {
  }

  // ----- the whole run

  /** What is read before the blocks of the loops: the signature, the counts of a multi-threaded
      file, and the initial block as it is. */
  datatype Start = Start(bytesRead: nat, block: seq<byte>, uncompressedSize: uint32, headChunks: nat, tailChunks: nat)

  function Times64(a: nat, b: nat): uint64 {
    Wrap64(a * b)
  }

  function StartAt(data: seq<byte>, ofs: nat, multi: bool): Start {
    var at := ofs + SIGNATURE_BYTES + if multi then METADATA_BYTES else 0;
    var size := U32At(data, at + 4);
    Start(at + 8 + size - ofs, BytesAt(data, at + 8, size), U32At(data, at),
          if multi then HeadChunks(data, ofs) else 0, if multi then TailChunks(data, ofs) else 0)
  }

  /** Threads times blocks per thread, as 64-bit numbers. */
  function HeadChunks(data: seq<byte>, ofs: nat): uint64 {
    Times64(U64At(data, ofs + SIGNATURE_BYTES + 16), U64At(data, ofs + SIGNATURE_BYTES + 8))
  }

  function TailChunks(data: seq<byte>, ofs: nat): uint64 {
    Times64(U64At(data, ofs + SIGNATURE_BYTES + 24), U64At(data, ofs + SIGNATURE_BYTES))
  }

  method ReadU64(file: FileHandle, ghost ofs: nat, bytesRead: nat) returns (w: uint64)
    requires Coherent(file, ofs, bytesRead)
    modifies file`pos
    ensures w == U64At(file.data, ofs + bytesRead) && Coherent(file, ofs, bytesRead + 8)
  {
    CoherentBytes(file.data, file.pos, ofs + bytesRead, 8);
    var b := file.Read(8);
    LeWidth(b);
    w := LeValue(b);
  }

  /** The table of a multi-threaded file: the numbers of chunks in the head and in the tail. */
  method ReadCounts(file: FileHandle, ofs: nat) returns (headChunks: uint64, tailChunks: uint64)
    requires Coherent(file, ofs, SIGNATURE_BYTES)
    modifies file`pos
    ensures headChunks == HeadChunks(file.data, ofs) && tailChunks == TailChunks(file.data, ofs)
    ensures Coherent(file, ofs, SIGNATURE_BYTES + METADATA_BYTES)
  {
    hide U64At, Times64;
    var bytesRead := SIGNATURE_BYTES;
    var tailBlockCount := ReadU64(file, ofs, bytesRead);
    var headBlockCount := ReadU64(file, ofs, bytesRead + 8);
    var headThreadCount := ReadU64(file, ofs, bytesRead + 16);
    var tailThreadCount := ReadU64(file, ofs, bytesRead + 24);
    var chunkUncompressedSize := ReadU64(file, ofs, bytesRead + 32);
    headChunks := Times64(headThreadCount, headBlockCount);
    tailChunks := Times64(tailThreadCount, tailBlockCount);
  }

  /** `decompress_initial_block` and its multi-threaded version, up to the call of the decompressor. */
  method ReadStart(file: FileHandle, ofs: nat, multi: bool) returns (s: Start)
    requires file.pos == ofs
    modifies file`pos
    ensures s == StartAt(file.data, ofs, multi)
    ensures Coherent(file, ofs, s.bytesRead)
  {
    hide U32At, BytesAt, HeadChunks, TailChunks;
    var signature := file.Read(SIGNATURE_BYTES);
    var bytesRead: nat := SIGNATURE_BYTES;
    var headChunks: nat, tailChunks: nat := 0, 0;
    if multi {
      headChunks, tailChunks := ReadCounts(file, ofs);
      bytesRead := bytesRead + METADATA_BYTES;
    }
    var uncompressedSize := ReadU32(file, ofs, bytesRead);
    var compressedSize := ReadU32(file, ofs, bytesRead + 4);
    bytesRead := bytesRead + 8;
    CoherentBytes(file.data, file.pos, ofs + bytesRead, compressedSize);
    var block := file.Read(compressedSize);
    bytesRead := bytesRead + compressedSize;
    s := Start(bytesRead, block, uncompressedSize, headChunks, tailChunks);
  }

  /** The window of a run: the buffer and the skip offset. */
  datatype Windowed = Windowed(buffer: seq<byte>, skipOffset: nat)

  /** The setup the loops run with once the initial block is read. */
  function SetupOf(data: seq<byte>, ofs: nat, size: nat, multi: bool, trailing: int, decode: Decoder, d: Directory)
    : Setup
  {
    var s := StartAt(data, ofs, multi);
    if multi then
      Setup(data, ofs, size, Wrap64(s.headChunks + s.tailChunks), trailing, Some(SignatureOf(s.block)), decode)
    else Setup(data, ofs, size, TotalBlocks(d.offset, d.size), trailing, None, decode)
  }

  /** The session signature of a block, zero if it has no whole header. */
  function SignatureOf(block: seq<byte>): uint32 {
    if |block| < HEADER_BYTES then 0 else U32At(block, 20)
  }

  function LoopBound(data: seq<byte>, ofs: nat, size: nat, multi: bool): nat {
    if multi then StartAt(data, ofs, true).headChunks + StartAt(data, ofs, true).tailChunks else size
  }

  /** The outcome of a whole run: initial block, directory, the loops, the completeness check. */
  function RunModel(data: seq<byte>, ofs: nat, size: nat, multi: bool, trailing: int, decode: Decoder,
               parse: seq<byte> -> Result<Directory>): Result<Windowed>
  {
    var start := StartAt(data, ofs, multi);
    match decode([start.block])
    case Threw => Threw
    case Returned(initial) =>
      if |initial| != start.uncompressedSize then Threw
      else match parse(initial)
        case Threw => Threw
        case Returned(d) =>
          match WalkBlocks(SetupOf(data, ofs, size, multi, trailing, decode, d),
                     State(start.bytesRead, 0, 0, 0, [start.block], []), LoopBound(data, ofs, size, multi))
          case Threw => Threw
          case Returned(end) =>
            if end.skipOffset + |initial + end.kept| < Wrap64(d.offset + d.size) then Threw
            else Returned(Windowed(initial + end.kept, end.skipOffset))
  }

  /** The signature of the first header, taken before the block is decompressed. */
  method FirstSignature(block: seq<byte>) returns (signature: uint32)
    ensures signature == SignatureOf(block)
  {
    var buffer := new byte[|block|](i requires 0 <= i < |block| => block[i]);
    assert buffer[..] == block;
    var header := Header.ExtractFromBuffer(buffer, 0);
    signature := header.sessionSignature;
    header.SignatureBytes();
    if |block| >= HEADER_BYTES {
      assert block[..HEADER_BYTES][20..24] == block[20..24] == BytesAt(block, 20, 4);
    }
    Le32(signature);
  }

  /** The compressed branches of `get_sqlite`, from the start of the data model to the buffer that
      ranges are read from. */
  method GetWindow(file: FileHandle, ofs: nat, size: nat, multi: bool, trailing: int, wrapper: XPress9Wrapper,
                   parse: seq<byte> -> Result<Directory>) returns (r: Result<Windowed>)
    requires wrapper.fed == []
    modifies file`pos, wrapper`fed
    ensures r == RunModel(file.data, ofs, size, multi, trailing, wrapper.decode, parse)
  {
    hide StartAt, WalkBlocks, U32At;
    file.Seek(ofs);
    var start := ReadStart(file, ofs, multi);
    var firstSignature := FirstSignature(start.block);
    var initial := wrapper.Decompress(start.block);
    assert [] + [start.block] == [start.block];
    if initial.Threw? || |initial.value| != start.uncompressedSize {
      return Threw;
    }
    var directory := parse(initial.value);
    if directory.Threw? {
      return Threw;
    }
    var d := directory.value;
    var end: Result<State>;
    if multi {
      var c := Setup(file.data, ofs, size, Wrap64(start.headChunks + start.tailChunks), trailing,
                     Some(firstSignature), wrapper.decode);
      end := IterateAndDecompressChunks(c, file, wrapper, start.bytesRead, start.headChunks, start.tailChunks);
    } else {
      var c := Setup(file.data, ofs, size, TotalBlocks(d.offset, d.size), trailing, None, wrapper.decode);
      end := IterateAndDecompressBlocks(c, file, wrapper, start.bytesRead);
    }
    if end.Threw? {
      return Threw;
    }
    var all := initial.value + end.value.kept;
    if end.value.skipOffset + |all| < Wrap64(d.offset + d.size) {
      return Threw;
    }
    r := Returned(Windowed(all, end.value.skipOffset));
  }

  /** The initial block and the blocks after the first `k`; or nothing, if even the whole model ends
      before the virtual directory does. */
  function WindowOf(initial: seq<byte>, bs: seq<Block>, payload: Payload, d: Directory, k: nat): Result<Windowed>
    requires k <= |bs|
  {
    if |Model(initial, bs, payload)| < Wrap64(d.offset + d.size) then Threw
    else Returned(Windowed(Kept(initial, bs, k, payload), SizeSum(bs[..k])))
  }

  /** A whole run on a written file: for any blocks the decompressor takes, the window is the
      initial block and the kept ones, the skip offset is the size of those in between, and the
      run throws exactly when the model is shorter than its directory says. */
  lemma RunOnBlocks(data: seq<byte>, ofs: nat, size: nat, multi: bool, trailing: int, decode: Decoder,
                    parse: seq<byte> -> Result<Directory>, payload: Payload, bs: seq<Block>, d: Directory)
    requires var start := StartAt(data, ofs, multi);
             InSession([start.block], SignatureOf(start.block), 0)
             && |payload(start.block)| == start.uncompressedSize
             && parse(payload(start.block)) == Returned(d)
             && Faithful(decode, SignatureOf(start.block), payload)
    requires var start, c := StartAt(data, ofs, multi), SetupOf(data, ofs, size, multi, trailing, decode, d);
             HoldsBlocks(c, start.bytesRead, bs) && |bs| + 1 < TWO_32 && |bs| <= LoopBound(data, ofs, size, multi)
             && forall i :: 0 <= i < |bs| ==> Sound(bs[i], SignatureOf(start.block), c.signature, payload)
    ensures RunModel(data, ofs, size, multi, trailing, decode, parse)
         == WindowOf(payload(StartAt(data, ofs, multi).block), bs, payload, d,
                     SkipCount(SetupOf(data, ofs, size, multi, trailing, decode, d).total, trailing, |bs|))
  {
    hide StartAt, WalkBlocks, U32At, HoldsBlocks, Accepts, Faithful, Sound, Renumbered, SkipCount;
    var start, c := StartAt(data, ofs, multi), SetupOf(data, ofs, size, multi, trailing, decode, d);
    var signature := SignatureOf(start.block);
    var initial := payload(start.block);
    var k := SkipCount(c.total, trailing, |bs|);
    FirstDecoded(decode, signature, payload, start.block);
    RunKeepsTail(c, start.block, start.bytesRead, bs, LoopBound(data, ofs, size, multi), signature, payload);
    AllSizesRight(bs, signature, c.signature, payload);
    PayloadsSplit(bs, k, payload);
  }

  lemma FirstDecoded(decode: Decoder, signature: uint32, payload: Payload, block: seq<byte>)
    requires Faithful(decode, signature, payload) && InSession([block], signature, 0)
    ensures decode([block]) == Returned(payload(block))
  {
    hide Accepts, InSession;
    assert [block][|[block]| - 1] == block;
  }

  lemma AllSizesRight(bs: seq<Block>, signature: uint32, patch: Option<uint32>, payload: Payload)
    requires forall i :: 0 <= i < |bs| ==> Sound(bs[i], signature, patch, payload)
    ensures SizesRight(bs, payload)
  {
    hide Sound;
    forall i | 0 <= i < |bs|
      ensures |payload(bs[i].bytes)| == bs[i].uncompressedSize
    {
      SoundSize(bs[i], signature, patch, payload);
    }
  }

  /** A run that returns has accounted for every announced byte: the initial block has the size its
      record says, what was skipped and what is in the buffer add up to that and the sizes of all
      records walked, and the virtual directory ends within them. */
  lemma RunAccounts(data: seq<byte>, ofs: nat, size: nat, multi: bool, trailing: int, decode: Decoder,
                    parse: seq<byte> -> Result<Directory>)
    requires RunModel(data, ofs, size, multi, trailing, decode, parse).Returned?
    ensures var w := RunModel(data, ofs, size, multi, trailing, decode, parse).value;
            var start := StartAt(data, ofs, multi);
            decode([start.block]).Returned?
            && parse(decode([start.block]).value).Returned?
            && (var d := parse(decode([start.block]).value).value;
                var c := SetupOf(data, ofs, size, multi, trailing, decode, d);
                |decode([start.block]).value| == U32At(data, ofs + 102 + if multi then 40 else 0)
                && w.skipOffset + |w.buffer|
                   == U32At(data, ofs + 102 + if multi then 40 else 0)
                      + UncompressedSum(Records(c, start.bytesRead, LoopBound(data, ofs, size, multi)))
                && (d.offset + d.size < TWO_64 ==> w.skipOffset + |w.buffer| >= d.offset + d.size))
  {
    hide WalkBlocks, U32At, BytesAt, Records, U64At, Times64;
    var start := StartAt(data, ofs, multi);
    var d := parse(decode([start.block]).value).value;
    WalkAccounts(SetupOf(data, ofs, size, multi, trailing, decode, d),
                 State(start.bytesRead, 0, 0, 0, [start.block], []), LoopBound(data, ofs, size, multi));
  }
}
