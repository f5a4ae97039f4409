/** From the contents of the blocks to a file and back: any list of contents can be written into a
    data model that the windowed read takes, and ranges of the contents are read from it. */
module WindowedRoundTrip {
  import opened Machine
  import opened Files
  import opened Header
  import opened Blocks
  import opened Window
  import opened WindowedRead

  /** A block to be written: the session and the number it had there, and what it holds. */
  datatype Piece = Piece(signature: uint32, index: uint32, content: seq<byte>)

  /** The numbers of a multi-threaded file, in the order they are stored. */
  datatype Counts = Counts(tailBlocks: uint64, headBlocks: uint64, headThreads: uint64, tailThreads: uint64,
                           chunkSize: uint64)

  // ----- the writer

  function BareBlock(content: seq<byte>): seq<byte> {
    LeBytes(0x4e86_d72a, 4) + seq(28, _ => 0) + content
  }

  /** Header and content; the header has its magic, session, number and checksum. */
  function BlockBytes(p: Piece): (block: seq<byte>)
    ensures |block| == HEADER_BYTES + |p.content|
  {
    Patched(BareBlock(p.content), p.index, Some(p.signature))
  }

  predicate Fits(p: Piece) {
    HEADER_BYTES + |p.content| < TWO_32
  }

  function BlockOf(p: Piece): (b: Block)
    requires Fits(p)
    ensures Storable(b)
  {
    Block(|p.content|, BlockBytes(p))
  }

  function BlocksOf(ps: seq<Piece>): (bs: seq<Block>)
    requires forall i :: 0 <= i < |ps| ==> Fits(ps[i])
    ensures |bs| == |ps| && forall i :: 0 <= i < |bs| ==> bs[i] == BlockOf(ps[i])
  {
    seq(|ps|, i requires 0 <= i < |ps| => BlockOf(ps[i]))
  }

  /** The five numbers. */
  function CountBytes(c: Counts): (r: seq<byte>)
    ensures |r| == 40
  {
    LeBytes(c.tailBlocks, 8) + LeBytes(c.headBlocks, 8) + LeBytes(c.headThreads, 8) + LeBytes(c.tailThreads, 8)
    + LeBytes(c.chunkSize, 8)
  }

  /** What precedes the blocks. */
  function FrontBytes(signature: seq<byte>, counts: Option<Counts>): seq<byte> {
    signature + match counts case Some(c) => CountBytes(c) case None => []
  }

  function ModelFile(signature: seq<byte>, counts: Option<Counts>, first: Piece, rest: seq<Piece>): seq<byte>
    requires Fits(first) && forall i :: 0 <= i < |rest| ==> Fits(rest[i])
  {
    FrontBytes(signature, counts) + RecordOf(BlockOf(first)) + RecordsOf(BlocksOf(rest))
  }

  function Chunks(c: Counts): nat {
    Times64(c.headThreads, c.headBlocks) + Times64(c.tailThreads, c.tailBlocks)
  }

  /** What a file must be written from: the first block opens its session, a single-threaded file is
      one session, and a multi-threaded one announces at least as many chunks as follow. */
  predicate Consistent(signature: seq<byte>, counts: Option<Counts>, first: Piece, rest: seq<Piece>) {
    |signature| == 102 && Fits(first) && (forall i :: 0 <= i < |rest| ==> Fits(rest[i]))
    && first.index == 0 && |rest| + 1 < TWO_32
    && match counts
       case None => forall i :: 0 <= i < |rest| ==> rest[i].signature == first.signature
       case Some(c) => |rest| <= Chunks(c)
  }

  // ----- what is read of it

  lemma BareFields(content: seq<byte>)
    ensures U32At(BareBlock(content), 0) == XPRESS9_MAGIC && U32At(BareBlock(content), 16) == 0
  {
    hide LeBytes, LeValue;
    var bare := BareBlock(content);
    assert BytesAt(bare, 0, 4) == LeBytes(XPRESS9_MAGIC, 4);
    Le32(XPRESS9_MAGIC);
    ZeroBytes();
    assert BytesAt(bare, 16, 4) == LeBytes(0, 4);
    Le32(0);
  }

  /** A written block is accepted under the number and session it was written with. */
  lemma BlockAccepted(p: Piece)
    ensures Accepts(Session(p.signature, p.index), BlockBytes(p))
    ensures Body(BlockBytes(p)) == p.content && U32At(BlockBytes(p), 20) == p.signature
  {
    hide LeBytes, LeValue, Patched, U32At, HeaderCrc;
    BareFields(p.content);
    PatchedAcceptedIff(Session(p.signature, p.index), BareBlock(p.content), Some(p.signature));
    PatchedFields(BareBlock(p.content), p.index, Some(p.signature));
  }

  lemma BlockSound(p: Piece, signature: uint32, patch: Option<uint32>)
    requires Fits(p) && (if patch.Some? then patch.value else p.signature) == signature
    ensures Sound(BlockOf(p), signature, patch, Body)
  {
    hide BlockBytes, U32At, HeaderCrc, Body;
    BlockAccepted(p);
  }

  lemma CountsStand(data: seq<byte>, position: nat, c: Counts)
    requires StandsAt(data, position, CountBytes(c))
    ensures U64At(data, position) == c.tailBlocks && U64At(data, position + 8) == c.headBlocks
    ensures U64At(data, position + 16) == c.headThreads && U64At(data, position + 24) == c.tailThreads
  {
    hide LeBytes, U64At, StandsAt;
    var two := LeBytes(c.tailBlocks, 8) + LeBytes(c.headBlocks, 8);
    var three := two + LeBytes(c.headThreads, 8);
    StandsParts(data, position, three + LeBytes(c.tailThreads, 8), LeBytes(c.chunkSize, 8));
    StandsParts(data, position, three, LeBytes(c.tailThreads, 8));
    StandsParts(data, position, two, LeBytes(c.headThreads, 8));
    StandsParts(data, position, LeBytes(c.tailBlocks, 8), LeBytes(c.headBlocks, 8));
    U64Stands(data, position, c.tailBlocks);
    U64Stands(data, position + 8, c.headBlocks);
    U64Stands(data, position + 16, c.headThreads);
    U64Stands(data, position + 24, c.tailThreads);
  }

  lemma RecordStands(data: seq<byte>, position: nat, b: Block)
    requires Storable(b) && StandsAt(data, position, RecordOf(b))
    ensures U32At(data, position) == b.uncompressedSize && U32At(data, position + 4) == |b.bytes|
    ensures BytesAt(data, position + 8, |b.bytes|) == b.bytes
  {
    hide LeBytes, U32At;
    StandsParts(data, position, LeBytes(b.uncompressedSize, 4) + LeBytes(|b.bytes|, 4), b.bytes);
    StandsParts(data, position, LeBytes(b.uncompressedSize, 4), LeBytes(|b.bytes|, 4));
    U32Stands(data, position, b.uncompressedSize);
    U32Stands(data, position + 4, |b.bytes|);
  }

  /** What is read before the blocks of the loops. */
  function StartOfWritten(signature: seq<byte>, counts: Option<Counts>, first: Piece): Start {
    Start(|FrontBytes(signature, counts)| + 8 + |BlockBytes(first)|, BlockBytes(first), Wrap32(|first.content|),
          match counts case Some(c) => Times64(c.headThreads, c.headBlocks) case None => 0,
          match counts case Some(c) => Times64(c.tailThreads, c.tailBlocks) case None => 0)
  }

  lemma StartIsWritten(data: seq<byte>, ofs: nat, signature: seq<byte>, counts: Option<Counts>, first: Piece,
                       rest: seq<Piece>)
    requires Consistent(signature, counts, first, rest)
    requires StandsAt(data, ofs, ModelFile(signature, counts, first, rest))
    ensures StartAt(data, ofs, counts.Some?) == StartOfWritten(signature, counts, first)
    ensures StandsAt(data, ofs + StartOfWritten(signature, counts, first).bytesRead, RecordsOf(BlocksOf(rest)))
    ensures |ModelFile(signature, counts, first, rest)|
         == StartOfWritten(signature, counts, first).bytesRead + |RecordsOf(BlocksOf(rest))|
  {
    hide StandsAt, U32At, U64At, BytesAt, CountBytes, BlockBytes, RecordsOf, LeBytes, Times64;
    var front, record := FrontBytes(signature, counts), RecordOf(BlockOf(first));
    StandsParts(data, ofs, front + record, RecordsOf(BlocksOf(rest)));
    StandsParts(data, ofs, front, record);
    RecordStands(data, ofs + |front|, BlockOf(first));
    if counts.Some? {
      StandsParts(data, ofs, signature, CountBytes(counts.value));
      CountsStand(data, ofs + |signature|, counts.value);
    }
  }

  /** The number of blocks the loops take there to be. */
  function TotalOf(counts: Option<Counts>, d: Directory): uint64 {
    match counts case Some(c) => Wrap64(Chunks(c)) case None => TotalBlocks(d.offset, d.size)
  }

  /** Any consistent pieces, written as a data model anywhere in a file, are run through by even the
      strictest decompressor: the window is the first content and those of the kept blocks. */
  lemma WrittenRuns(data: seq<byte>, ofs: nat, signature: seq<byte>, counts: Option<Counts>, first: Piece,
                    rest: seq<Piece>, trailing: int, parse: seq<byte> -> Result<Directory>, d: Directory)
    requires Consistent(signature, counts, first, rest)
    requires StandsAt(data, ofs, ModelFile(signature, counts, first, rest)) && parse(first.content) == Returned(d)
    ensures var size := |ModelFile(signature, counts, first, rest)|;
            RunModel(data, ofs, size, counts.Some?, trailing, Checking(Body), parse)
            == WindowOf(first.content, BlocksOf(rest), Body, d, SkipCount(TotalOf(counts, d), trailing, |rest|))
  {
    hide StandsAt, U32At, ModelFile, StartAt, Accepts, Faithful, Sound, BlockBytes, Body, SkipCount, RunModel, WindowOf;
    hide Checking, InSession, RecordsOf, Chunks, TotalBlocks;
    var size, multi := |ModelFile(signature, counts, first, rest)|, counts.Some?;
    var bs, start := BlocksOf(rest), StartOfWritten(signature, counts, first);
    StartIsWritten(data, ofs, signature, counts, first, rest);
    FirstOpens(first);
    BodyIgnoresPatch();
    CheckingIsFaithful(first.signature, Body);
    AllSound(first, rest, counts);
    HeldBlocks(SetupOf(data, ofs, size, multi, trailing, Checking(Body), d), start.bytesRead, bs);
    if counts.Some? {
      WrittenChunks(signature, counts, first);
    }
    LoopsReach(data, ofs, size, counts, rest, start);
    RunOnBlocks(data, ofs, size, multi, trailing, Checking(Body), parse, Body, bs, d);
    TotalIs(data, ofs, size, trailing, counts, d, start);
  }

  lemma WrittenChunks(signature: seq<byte>, counts: Option<Counts>, first: Piece)
    requires counts.Some?
    ensures var start := StartOfWritten(signature, counts, first);
            start.headChunks + start.tailChunks == Chunks(counts.value)
  {
  }

  /** The signature the loops patch in. */
  function PatchOf(first: Piece, counts: Option<Counts>): Option<uint32> {
    if counts.Some? then Some(first.signature) else None
  }

  lemma FirstOpens(first: Piece)
    requires first.index == 0
    ensures InSession([BlockBytes(first)], first.signature, 0)
    ensures SignatureOf(BlockBytes(first)) == first.signature
    ensures Body(BlockBytes(first)) == first.content
  {
    hide U32At, Accepts, BlockBytes;
    BlockAccepted(first);
  }

  lemma AllSound(first: Piece, rest: seq<Piece>, counts: Option<Counts>)
    requires forall i :: 0 <= i < |rest| ==> Fits(rest[i])
    requires counts.None? ==> forall i :: 0 <= i < |rest| ==> rest[i].signature == first.signature
    ensures forall i :: 0 <= i < |rest| ==> Sound(BlocksOf(rest)[i], first.signature, PatchOf(first, counts), Body)
  {
    hide Sound, BlockOf, Body;
    forall i | 0 <= i < |rest|
      ensures Sound(BlocksOf(rest)[i], first.signature, PatchOf(first, counts), Body)
    {
      BlockSound(rest[i], first.signature, PatchOf(first, counts));
    }
  }

  lemma HeldBlocks(c: Setup, bytesRead: nat, bs: seq<Block>)
    requires forall i :: 0 <= i < |bs| ==> Storable(bs[i])
    requires StandsAt(c.data, c.ofs + bytesRead, RecordsOf(bs)) && c.size == bytesRead + |RecordsOf(bs)|
    ensures HoldsBlocks(c, bytesRead, bs)
  {
  }

  lemma {:induction false} RecordsLength(bs: seq<Block>)
    requires forall i :: 0 <= i < |bs| ==> Storable(bs[i])
    ensures |RecordsOf(bs)| >= |bs|
  {
    if bs != [] {
      RecordsLength(bs[1..]);
    }
  }

  lemma LoopsReach(data: seq<byte>, ofs: nat, size: nat, counts: Option<Counts>, rest: seq<Piece>, start: Start)
    requires forall i :: 0 <= i < |rest| ==> Fits(rest[i])
    requires StartAt(data, ofs, counts.Some?) == start && size == start.bytesRead + |RecordsOf(BlocksOf(rest))|
    requires counts.Some? ==> start.headChunks + start.tailChunks == Chunks(counts.value) >= |rest|
    ensures |rest| <= LoopBound(data, ofs, size, counts.Some?)
  {
    hide StartAt, RecordsOf, Chunks;
    RecordsLength(BlocksOf(rest));
  }

  lemma TotalIs(data: seq<byte>, ofs: nat, size: nat, trailing: int, counts: Option<Counts>, d: Directory, start: Start)
    requires StartAt(data, ofs, counts.Some?) == start
    requires counts.Some? ==> start.headChunks + start.tailChunks == Chunks(counts.value)
    ensures SetupOf(data, ofs, size, counts.Some?, trailing, Checking(Body), d).total == TotalOf(counts, d)
  {
    hide StartAt, Chunks, Checking;
  }

  // ----- and back

  function Contents(ps: seq<Piece>): seq<byte> {
    if ps == [] then [] else ps[0].content + Contents(ps[1..])
  }

  lemma {:induction false} PayloadsAreContents(ps: seq<Piece>)
    requires forall i :: 0 <= i < |ps| ==> Fits(ps[i])
    ensures Payloads(BlocksOf(ps), Body) == Contents(ps)
  {
    hide Body, BlockBytes;
    if ps == [] {
    } else {
      PayloadsAreContents(ps[1..]);
      BlockAccepted(ps[0]);
      assert BlocksOf(ps)[1..] == BlocksOf(ps[1..]);
    }
  }

  lemma WrittenSizesRight(ps: seq<Piece>)
    requires forall i :: 0 <= i < |ps| ==> Fits(ps[i])
    ensures SizesRight(BlocksOf(ps), Body)
  {
    hide Body, BlockBytes;
    forall i | 0 <= i < |ps|
      ensures |Body(BlocksOf(ps)[i].bytes)| == BlocksOf(ps)[i].uncompressedSize
    {
      BlockAccepted(ps[i]);
    }
  }

  /** The whole way: pieces are written as a single-threaded data model, its window is read with any
      `trailing` setting, and a range in the last `trailing` blocks before the end of the virtual
      directory, read from the window, is that range of the contents; provided the directory lies in
      them and the size of the range fits its `int`. */
  lemma RangesReadBack(data: seq<byte>, ofs: nat, signature: seq<byte>, first: Piece, rest: seq<Piece>, trailing: int,
                       parse: seq<byte> -> Result<Directory>, d: Directory, offset: nat, size: nat)
    requires Consistent(signature, None, first, rest)
    requires StandsAt(data, ofs, ModelFile(signature, None, first, rest)) && parse(first.content) == Returned(d)
    requires |first.content| <= 0x20_0000 && forall i :: 0 <= i < |rest| ==> |rest[i].content| <= 0x20_0000
    requires 0 <= trailing < 0x8000_0000 && d.offset + d.size <= |first.content + Contents(rest)| < TWO_64
    requires d.offset + d.size - trailing * 0x20_0000 <= offset
    requires offset + size <= |first.content + Contents(rest)| && size < 0x8000_0000
    ensures var written := ModelFile(signature, None, first, rest);
            var run := RunModel(data, ofs, |written|, false, trailing, Checking(Body), parse);
            run.Returned?
            && ReadRange(run.value.buffer, Wrap64(offset - run.value.skipOffset), ToInt32(size))
               == Returned(Defined((first.content + Contents(rest))[offset..offset + size]))
  {
    hide StandsAt, ModelFile, RunModel, Contents, Body, Checking, SkipCount, TotalBlocks, BlockBytes, Payloads;
    var bs := BlocksOf(rest);
    WrittenRuns(data, ofs, signature, None, first, rest, trailing, parse, d);
    PayloadsAreContents(rest);
    WrittenSizesRight(rest);
    TrailingRangesRead(first.content, bs, d, trailing, Body, offset, size);
  }

  lemma {:induction false} SizesAreContents(ps: seq<Piece>, k: nat)
    requires k <= |ps| && forall i :: 0 <= i < |ps| ==> Fits(ps[i])
    ensures SizeSum(BlocksOf(ps)[..k]) == |Contents(ps[..k])|
    decreases k
  {
    hide BlockBytes;
    if k > 0 {
      SizesAreContents(ps[1..], k - 1);
      assert BlocksOf(ps)[..k][1..] == BlocksOf(ps[1..])[..k - 1];
      assert ps[..k][1..] == ps[1..][..k - 1];
    }
  }

  /** What lies before the last `trailing` pieces. */
  function BeforeTrailing(rest: seq<Piece>, trailing: nat): seq<Piece> {
    rest[..|rest| - Min(trailing, |rest|)]
  }

  /** The same of a multi-threaded data model with as many chunks as it announces, the first included:
      its window keeps exactly the last `trailing` contents, or all when there are not that many, and a
      range in them, or any range when all are kept, is read from it. */
  lemma ChunkRangesReadBack(data: seq<byte>, ofs: nat, signature: seq<byte>, c: Counts, first: Piece, rest: seq<Piece>,
                            trailing: int, parse: seq<byte> -> Result<Directory>, d: Directory, offset: nat, size: nat)
    requires Consistent(signature, Some(c), first, rest) && Chunks(c) == |rest| + 1
    requires StandsAt(data, ofs, ModelFile(signature, Some(c), first, rest)) && parse(first.content) == Returned(d)
    requires 0 <= trailing < 0x8000_0000 && d.offset + d.size <= |first.content + Contents(rest)| < TWO_64
    requires Contents(BeforeTrailing(rest, trailing)) == []
             || offset >= |first.content| + |Contents(BeforeTrailing(rest, trailing))|
    requires offset + size <= |first.content + Contents(rest)| && size < 0x8000_0000
    ensures var written := ModelFile(signature, Some(c), first, rest);
            var run := RunModel(data, ofs, |written|, true, trailing, Checking(Body), parse);
            run.Returned?
            && run.value.buffer == first.content + Contents(rest[|BeforeTrailing(rest, trailing)|..])
            && run.value.skipOffset == |Contents(BeforeTrailing(rest, trailing))|
            && ReadRange(run.value.buffer, Wrap64(offset - run.value.skipOffset), ToInt32(size))
               == Returned(Defined((first.content + Contents(rest))[offset..offset + size]))
  {
    hide StandsAt, ModelFile, RunModel, Contents, Body, Checking, SkipCount, BlockBytes, Payloads, Chunks;
    var bs, k := BlocksOf(rest), |BeforeTrailing(rest, trailing)|;
    WrittenRuns(data, ofs, signature, Some(c), first, rest, trailing, parse, d);
    KeepsTrailing(|rest| + 1, trailing, |rest|);
    assert SkipCount(|rest| + 1, trailing, |rest|) == k;
    PayloadsAreContents(rest);
    PayloadsAreContents(rest[k..]);
    assert bs[k..] == BlocksOf(rest[k..]);
    WrittenSizesRight(rest);
    SizesAreContents(rest, k);
    WindowedReadIsFullRead(first.content, bs, k, Body, offset, size);
  }

  // ----- which blocks a single-threaded read keeps

  /** All blocks are full but the last, which may be. */
  predicate FullBlocks(first: Piece, rest: seq<Piece>) {
    rest != [] ==>
      |first.content| == 0x20_0000 && 0 < |rest[|rest| - 1].content| <= 0x20_0000
      && forall i :: 0 <= i < |rest| - 1 ==> |rest[i].content| == 0x20_0000
  }

  lemma {:induction false} FullLength(rest: seq<Piece>)
    requires rest != [] && forall i :: 0 <= i < |rest| - 1 ==> |rest[i].content| == 0x20_0000
    ensures |Contents(rest)| == (|rest| - 1) * 0x20_0000 + |rest[|rest| - 1].content|
  {
    if |rest| == 1 {
      assert Contents(rest[1..]) == [];
    } else {
      assert forall i :: 0 <= i < |rest| - 2 ==> rest[1..][i] == rest[i + 1];
      FullLength(rest[1..]);
    }
  }

  /** How many of the contents behind the first are kept: the last `trailing`, and one more when the
      last block is not full. */
  function KeptCount(rest: seq<Piece>, trailing: nat): (kept: nat)
    ensures kept <= |rest|
  {
    if rest == [] then 0
    else Min(if |rest[|rest| - 1].content| == 0x20_0000 then trailing else trailing + 1, |rest|)
  }

  lemma FullTotal(first: Piece, rest: seq<Piece>, d: Directory)
    requires FullBlocks(first, rest) && rest != []
    requires d.offset + d.size == |first.content + Contents(rest)| < TWO_64
    ensures TotalOf(None, d) == if |rest[|rest| - 1].content| == 0x20_0000 then |rest| + 1 else |rest|
  {
    hide Contents;
    FullLength(rest);
    Quotient(|rest|, |rest[|rest| - 1].content|);
  }

  lemma KeptCountIs(first: Piece, rest: seq<Piece>, trailing: int, d: Directory)
    requires FullBlocks(first, rest) && 0 <= trailing < 0x8000_0000
    requires d.offset + d.size == |first.content + Contents(rest)| < TWO_64
    ensures |rest| - SkipCount(TotalOf(None, d), trailing, |rest|) == KeptCount(rest, trailing)
  {
    hide Contents, TotalOf, FullBlocks;
    if rest != [] {
      FullTotal(first, rest, d);
    }
  }

  lemma Quotient(n: nat, last: nat)
    requires last <= 0x20_0000
    ensures (n * 0x20_0000 + last) / 0x20_0000 == if last == 0x20_0000 then n + 1 else n
  {
  }

  /** The window of a single-threaded data model whose directory ends it: the first content and exactly
      the last `trailing` of the others, one more when the last block is not full, or all when there
      are not that many; the skip offset is the length of those in between. */
  lemma SingleWindowIs(data: seq<byte>, ofs: nat, signature: seq<byte>, first: Piece, rest: seq<Piece>, trailing: int,
                       parse: seq<byte> -> Result<Directory>, d: Directory)
    requires Consistent(signature, None, first, rest) && FullBlocks(first, rest)
    requires StandsAt(data, ofs, ModelFile(signature, None, first, rest)) && parse(first.content) == Returned(d)
    requires 0 <= trailing < 0x8000_0000 && d.offset + d.size == |first.content + Contents(rest)| < TWO_64
    ensures var written, k := ModelFile(signature, None, first, rest), |rest| - KeptCount(rest, trailing);
            RunModel(data, ofs, |written|, false, trailing, Checking(Body), parse)
            == Returned(Windowed(first.content + Contents(rest[k..]), |Contents(rest[..k])|))
  {
    hide StandsAt, ModelFile, RunModel, Contents, Body, Checking, SkipCount, BlockBytes, Payloads, TotalOf, FullBlocks;
    hide KeptCount, WindowOf;
    WrittenRuns(data, ofs, signature, None, first, rest, trailing, parse, d);
    KeptCountIs(first, rest, trailing, d);
    KeptWindow(first, rest, |rest| - KeptCount(rest, trailing), d);
  }

  lemma KeptWindow(first: Piece, rest: seq<Piece>, k: nat, d: Directory)
    requires k <= |rest| && (forall i :: 0 <= i < |rest| ==> Fits(rest[i]))
    requires d.offset + d.size <= |first.content + Contents(rest)| < TWO_64
    ensures WindowOf(first.content, BlocksOf(rest), Body, d, k)
         == Returned(Windowed(first.content + Contents(rest[k..]), |Contents(rest[..k])|))
  {
    hide Contents, Body, BlockBytes, Payloads, SizeSum;
    PayloadsAreContents(rest);
    PayloadsAreContents(rest[k..]);
    assert BlocksOf(rest)[k..] == BlocksOf(rest[k..]);
    SizesAreContents(rest, k);
  }

  /** A negative setting is taken as an enormous number: nothing is skipped. */
  lemma NegativeKeepsAll(data: seq<byte>, ofs: nat, signature: seq<byte>, counts: Option<Counts>, first: Piece,
                         rest: seq<Piece>, trailing: int, parse: seq<byte> -> Result<Directory>, d: Directory)
    requires Consistent(signature, counts, first, rest) && parse(first.content) == Returned(d)
    requires StandsAt(data, ofs, ModelFile(signature, counts, first, rest))
    requires -0x8000_0000 <= trailing < 0 && (counts.Some? ==> Chunks(counts.value) < 0x8000_0000_0000_0000)
    requires d.offset + d.size <= |first.content + Contents(rest)| < TWO_64
    ensures var written := ModelFile(signature, counts, first, rest);
            RunModel(data, ofs, |written|, counts.Some?, trailing, Checking(Body), parse)
            == Returned(Windowed(first.content + Contents(rest), 0))
  {
    hide StandsAt, ModelFile, RunModel, Contents, Body, Checking, BlockBytes, Payloads, Chunks, WindowOf;
    WrittenRuns(data, ofs, signature, counts, first, rest, trailing, parse, d);
    SmallTotal(counts, d);
    assert SkipCount(TotalOf(counts, d), trailing, |rest|) == 0;
    KeptWindow(first, rest, 0, d);
    assert rest[0..] == rest && rest[..0] == [];
    NoContents();
  }

  lemma SmallTotal(counts: Option<Counts>, d: Directory)
    requires counts.Some? ==> Chunks(counts.value) < 0x8000_0000_0000_0000
    ensures TotalOf(counts, d) < 0x8000_0000_0000_0000
  {
    hide Chunks;
  }

  lemma NoContents()
    ensures Contents([]) == []
  {
  }
}
