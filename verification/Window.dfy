/** What the block loops keep, and reading ranges of the whole model from it. */
module Window {
  import opened Machine
  import opened Files
  import opened Header
  import opened Blocks

  /** A block of the file: its size once decompressed, and its compressed bytes. */
  datatype Block = Block(uncompressedSize: uint32, bytes: seq<byte>)

  predicate Storable(b: Block) {
    |b.bytes| < TWO_32
  }

  function RecordOf(b: Block): seq<byte>
    requires Storable(b)
  {
    LeBytes(b.uncompressedSize, 4) + LeBytes(|b.bytes|, 4) + b.bytes
  }

  function RecordsOf(bs: seq<Block>): seq<byte>
    requires forall i :: 0 <= i < |bs| ==> Storable(bs[i])
  {
    if bs == [] then [] else RecordOf(bs[0]) + RecordsOf(bs[1..])
  }

  /** The file holds the blocks from `bytesRead` on, and nothing else up to its size. */
  predicate HoldsBlocks(c: Setup, bytesRead: nat, bs: seq<Block>) {
    (forall i :: 0 <= i < |bs| ==> Storable(bs[i]))
    && StandsAt(c.data, c.ofs + bytesRead, RecordsOf(bs)) && c.size == bytesRead + |RecordsOf(bs)|
  }

  /** The next record is the first block, and the rest follows it. */
  lemma FirstRecord(c: Setup, bytesRead: nat, bs: seq<Block>)
    requires HoldsBlocks(c, bytesRead, bs) && bs != []
    ensures bytesRead < c.size
    ensures RecordAt(c, bytesRead) == (bs[0].uncompressedSize, |bs[0].bytes|)
    ensures BytesAt(c.data, c.ofs + bytesRead + 8, |bs[0].bytes|) == bs[0].bytes
    ensures HoldsBlocks(c, bytesRead + 8 + |bs[0].bytes|, bs[1..])
  {
    hide LeBytes, U32At;
    var b, p := bs[0], c.ofs + bytesRead;
    StandsParts(c.data, p, RecordOf(b), RecordsOf(bs[1..]));
    StandsParts(c.data, p, LeBytes(b.uncompressedSize, 4) + LeBytes(|b.bytes|, 4), b.bytes);
    StandsParts(c.data, p, LeBytes(b.uncompressedSize, 4), LeBytes(|b.bytes|, 4));
    U32Stands(c.data, p, b.uncompressedSize);
    U32Stands(c.data, p + 4, |b.bytes|);
  }

  // ----- the decompressor: what is assumed of it

  /** Blocks one after the other, each accepted as the next of a session. */
  predicate InSession(fed: seq<seq<byte>>, signature: uint32, first: nat) {
    forall i :: 0 <= i < |fed| ==> first + i < TWO_32 && Accepts(Session(signature, first + i), fed[i])
  }

  /** The payload does not see what patching changes. */
  ghost predicate IgnoresPatch(payload: seq<byte> -> seq<byte>) {
    forall b: seq<byte>, index: uint32, s: Option<uint32> :: payload(Patched(b, index, s)) == payload(b)
  }

  /** The assumption on the decompressor: fed only with blocks it accepts, it returns the payload
      of the last, and the payload does not depend on the parts of a header that are patched. */
  ghost predicate Faithful(decode: Decoder, signature: uint32, payload: seq<byte> -> seq<byte>) {
    (forall fed: seq<seq<byte>> :: fed != [] && InSession(fed, signature, 0) ==>
       decode(fed) == Returned(payload(fed[|fed| - 1])))
    && IgnoresPatch(payload)
  }

  /** The strictest decompressor: it throws unless all blocks so far were accepted one after the
      other, in the session of the first. */
  function Checking(payload: seq<byte> -> seq<byte>): Decoder {
    fed => if fed != [] && InSession(fed, U32At(fed[0], 20), 0) then Returned(payload(fed[|fed| - 1])) else Threw
  }

  /** That one, too, is as assumed, so the results on runs hold of it: a renumbered run never makes
      it throw. */
  lemma CheckingIsFaithful(signature: uint32, payload: seq<byte> -> seq<byte>)
    requires IgnoresPatch(payload)
    ensures Faithful(Checking(payload), signature, payload)
  {
    hide Patched, U32At, HeaderCrc;
    forall fed: seq<seq<byte>> | fed != [] && InSession(fed, signature, 0)
      ensures Checking(payload)(fed) == Returned(payload(fed[|fed| - 1]))
    {
      assert Accepts(Session(signature, 0), fed[0]);
    }
  }

  /** What follows the header. */
  function Body(block: seq<byte>): seq<byte> {
    if |block| < HEADER_BYTES then block else block[HEADER_BYTES..]
  }

  lemma BodyIgnoresPatch()
    ensures IgnoresPatch(Body)
  {
    hide LeBytes, HeaderCrc;
    forall b: seq<byte>, index: uint32, s: Option<uint32>
      ensures Body(Patched(b, index, s)) == Body(b)
    {
      if |b| >= HEADER_BYTES {
        PatchedFields(b, index, s);
      }
    }
  }

  /** A block the session can take once it is patched, of the size its record says. */
  predicate Sound(b: Block, signature: uint32, patch: Option<uint32>, payload: seq<byte> -> seq<byte>) {
    |b.bytes| >= HEADER_BYTES
    && U32At(b.bytes, 0) == XPRESS9_MAGIC && U32At(b.bytes, 16) == 0
    && (if patch.Some? then patch.value else U32At(b.bytes, 20)) == signature
    && |payload(b.bytes)| == b.uncompressedSize
  }

  function Payloads(bs: seq<Block>, payload: seq<byte> -> seq<byte>): seq<byte> {
    if bs == [] then [] else payload(bs[0].bytes) + Payloads(bs[1..], payload)
  }

  function SizeSum(bs: seq<Block>): nat {
    if bs == [] then 0 else bs[0].uncompressedSize + SizeSum(bs[1..])
  }

  /** The blocks as they are handed over: patched with consecutive numbers. */
  function Renumbered(bs: seq<Block>, first: nat, signature: Option<uint32>): (r: seq<seq<byte>>)
    requires first + |bs| < TWO_32
    ensures |r| == |bs|
  {
    seq(|bs|, i requires 0 <= i < |bs| => Patched(bs[i].bytes, first + i, signature))
  }

  /** How many of the `n` blocks after the initial one are skipped. */
  function SkipCount(total: uint64, trailing: int, n: nat): (k: nat)
    ensures k <= n
  {
    if total > Wrap64(trailing) then Min(n, total - Wrap64(trailing) - 1) else 0
  }

  // ----- the run

  lemma RenumberedCons(bs: seq<Block>, first: nat, signature: Option<uint32>)
    requires bs != [] && first + |bs| < TWO_32
    ensures Renumbered(bs, first, signature)
         == [Patched(bs[0].bytes, first, signature)] + Renumbered(bs[1..], first + 1, signature)
  {
    hide Patched;
  }

  /** One kept block: it is patched, handed over, accepted, and its payload appended. */
  lemma KeptStep(c: Setup, s: State, bs: seq<Block>, signature: uint32, payload: seq<byte> -> seq<byte>)
    returns (next: State)
    requires HoldsBlocks(c, s.bytesRead, bs) && bs != [] && s.blockIndexIterator + 1 < TWO_32
    requires !Skips(c.total, c.trailing, s.blockIndex + 1)
    requires Faithful(c.decode, signature, payload)
    requires |s.fed| == s.blockIndexIterator + 1 && InSession(s.fed, signature, 0)
    requires Sound(bs[0], signature, c.signature, payload)
    ensures s.bytesRead < c.size && BlockStep(c, s) == Returned(next)
    ensures next == State(next.bytesRead, s.blockIndex + 1, s.blockIndexIterator + 1, s.skipOffset,
                          s.fed + [Patched(bs[0].bytes, s.blockIndexIterator + 1, c.signature)],
                          s.kept + payload(bs[0].bytes))
    ensures HoldsBlocks(c, next.bytesRead, bs[1..]) && InSession(next.fed, signature, 0)
  {
    hide Patched, Accepts, U32At, LeBytes, Skips, InSession, Faithful, StandsAt, Sound, RecordAt, BytesAt;
    FirstRecord(c, s.bytesRead, bs);
    NextAccepted(s.fed, bs[0], signature, c.signature, payload);
    var patched := Patched(bs[0].bytes, s.blockIndexIterator + 1, c.signature);
    var fed := s.fed + [patched];
    FaithfulAt(c.decode, signature, payload, fed, bs[0].bytes, s.blockIndexIterator + 1, c.signature);
    SoundSize(bs[0], signature, c.signature, payload);
    next := State(s.bytesRead + 8 + |bs[0].bytes|, s.blockIndex + 1, s.blockIndexIterator + 1, s.skipOffset, fed,
                  s.kept + payload(bs[0].bytes));
  }

  lemma SoundSize(b: Block, signature: uint32, patch: Option<uint32>, payload: seq<byte> -> seq<byte>)
    requires Sound(b, signature, patch, payload)
    ensures |payload(b.bytes)| == b.uncompressedSize
  {
  }

  lemma FaithfulAt(decode: Decoder, signature: uint32, payload: seq<byte> -> seq<byte>, fed: seq<seq<byte>>,
                   b: seq<byte>, index: uint32, s: Option<uint32>)
    requires Faithful(decode, signature, payload) && InSession(fed, signature, 0)
    requires fed != [] && fed[|fed| - 1] == Patched(b, index, s)
    ensures decode(fed) == Returned(payload(b))
  {
    hide Patched, InSession;
  }

  lemma NoMoreSkips(c: Setup, index: nat)
    requires !Skips(c.total, c.trailing, index)
    ensures !Skips(c.total, c.trailing, index + 1)
  {
  }

  /** The state after all of `bs` have been kept. */
  function AfterKept(c: Setup, s: State, bs: seq<Block>, payload: seq<byte> -> seq<byte>): State
    requires s.blockIndexIterator + 1 + |bs| < TWO_32
  {
    State(c.size, s.blockIndex + |bs|, s.blockIndexIterator + |bs|, s.skipOffset,
          s.fed + Renumbered(bs, s.blockIndexIterator + 1, c.signature), s.kept + Payloads(bs, payload))
  }

  lemma AfterKeptStep(c: Setup, s: State, bs: seq<Block>, payload: seq<byte> -> seq<byte>, next: State)
    requires bs != [] && s.blockIndexIterator + 1 + |bs| < TWO_32
    requires next == State(next.bytesRead, s.blockIndex + 1, s.blockIndexIterator + 1, s.skipOffset,
                           s.fed + [Patched(bs[0].bytes, s.blockIndexIterator + 1, c.signature)],
                           s.kept + payload(bs[0].bytes))
    ensures AfterKept(c, next, bs[1..], payload) == AfterKept(c, s, bs, payload)
  {
    hide Patched, Renumbered;
    RenumberedCons(bs, s.blockIndexIterator + 1, c.signature);
    var patched := Patched(bs[0].bytes, s.blockIndexIterator + 1, c.signature);
    var rest := Renumbered(bs[1..], s.blockIndexIterator + 2, c.signature);
    assert next.fed + rest == s.fed + ([patched] + rest);
    assert next.kept + Payloads(bs[1..], payload) == s.kept + (payload(bs[0].bytes) + Payloads(bs[1..], payload));
  }

  /** All kept blocks. */
  lemma {:induction false} WalkKept(c: Setup, s: State, bs: seq<Block>, n: nat, signature: uint32,
                                    payload: seq<byte> -> seq<byte>)
    requires HoldsBlocks(c, s.bytesRead, bs) && |bs| <= n && s.blockIndexIterator + |bs| + 1 < TWO_32
    requires !Skips(c.total, c.trailing, s.blockIndex + 1)
    requires Faithful(c.decode, signature, payload)
    requires |s.fed| == s.blockIndexIterator + 1 && InSession(s.fed, signature, 0)
    requires forall i :: 0 <= i < |bs| ==> Sound(bs[i], signature, c.signature, payload)
    ensures WalkBlocks(c, s, n) == Returned(AfterKept(c, s, bs, payload))
    ensures InSession(AfterKept(c, s, bs, payload).fed, signature, 0)
    decreases |bs|
  {
    hide Patched, Faithful, InSession, Sound, Skips, BlockStep, StandsAt;
    if bs == [] {
      assert s.fed + [] == s.fed && s.kept + [] == s.kept;
      assert Renumbered(bs, s.blockIndexIterator + 1, c.signature) == [];
    } else {
      var next := KeptStep(c, s, bs, signature, payload);
      NoMoreSkips(c, s.blockIndex + 1);
      WalkKept(c, next, bs[1..], n - 1, signature, payload);
      AfterKeptStep(c, s, bs, payload, next);
    }
  }

  lemma NextAccepted(fed: seq<seq<byte>>, b: Block, signature: uint32, patch: Option<uint32>,
                     payload: seq<byte> -> seq<byte>)
    requires InSession(fed, signature, 0) && |fed| < TWO_32 && Sound(b, signature, patch, payload)
    ensures InSession(fed + [Patched(b.bytes, |fed|, patch)], signature, 0)
  {
    hide Patched, Accepts, U32At;
    PatchedAcceptedIff(Session(signature, |fed|), b.bytes, patch);
  }

  /** The skipped blocks: only the counters move. */
  lemma {:induction false} WalkSkipped(c: Setup, s: State, bs: seq<Block>, k: nat, n: nat) returns (mid: State)
    requires HoldsBlocks(c, s.bytesRead, bs) && k <= |bs| && k <= n
    requires k > 0 ==> c.total > Wrap64(c.trailing) && s.blockIndex + k < c.total - Wrap64(c.trailing)
    ensures mid == State(mid.bytesRead, s.blockIndex + k, s.blockIndexIterator, s.skipOffset + SizeSum(bs[..k]),
                         s.fed, s.kept)
    ensures WalkBlocks(c, s, n) == WalkBlocks(c, mid, n - k) && HoldsBlocks(c, mid.bytesRead, bs[k..])
    decreases k
  {
    hide Patched, U32At, LeBytes, StandsAt;
    if k == 0 {
      assert bs[0..] == bs;
      mid := s;
    } else {
      FirstRecord(c, s.bytesRead, bs);
      var next := State(s.bytesRead + 8 + |bs[0].bytes|, s.blockIndex + 1, s.blockIndexIterator,
                        s.skipOffset + bs[0].uncompressedSize, s.fed, s.kept);
      assert BlockStep(c, s) == Returned(next);
      mid := WalkSkipped(c, next, bs[1..], k - 1, n - 1);
      assert bs[1..][k - 1..] == bs[k..];
      assert bs[..k][1..] == bs[1..][..k - 1];
    }
  }

  /** The variables of the loops when `k` of the blocks have been skipped and the others kept. */
  function EndState(c: Setup, initial: seq<byte>, bs: seq<Block>, k: nat, payload: seq<byte> -> seq<byte>): State
    requires k <= |bs| && |bs| + 1 < TWO_32
  {
    State(c.size, |bs|, |bs| - k, SizeSum(bs[..k]),
          [initial] + Renumbered(bs[k..], 1, c.signature), Payloads(bs[k..], payload))
  }

  /** The whole run over the blocks after the initial one: the first `SkipCount` are skipped and
      add up to the skip offset, the others are handed over numbered 1, 2, 3, ... and their
      payloads make up what is kept. */
  lemma RunKeepsTail(c: Setup, initial: seq<byte>, bytesRead: nat, bs: seq<Block>, n: nat, signature: uint32,
                     payload: seq<byte> -> seq<byte>)
    requires HoldsBlocks(c, bytesRead, bs) && |bs| <= n && |bs| + 1 < TWO_32
    requires Faithful(c.decode, signature, payload) && InSession([initial], signature, 0)
    requires forall i :: 0 <= i < |bs| ==> Sound(bs[i], signature, c.signature, payload)
    ensures WalkBlocks(c, State(bytesRead, 0, 0, 0, [initial], []), n)
         == Returned(EndState(c, initial, bs, SkipCount(c.total, c.trailing, |bs|), payload))
    ensures InSession(EndState(c, initial, bs, SkipCount(c.total, c.trailing, |bs|), payload).fed, signature, 0)
  {
    hide Patched, Accepts, Faithful, InSession, Sound, BlockStep, StandsAt, WalkBlocks, HoldsBlocks, Renumbered;
    var k := SkipCount(c.total, c.trailing, |bs|);
    var start := State(bytesRead, 0, 0, 0, [initial], []);
    var mid := WalkSkipped(c, start, bs, k, n);
    assert [] + Payloads(bs[k..], payload) == Payloads(bs[k..], payload);
    if k == |bs| {
      WalkNothing(c, mid, n - k, bs);
      assert Payloads(bs[k..], payload) == [];
      assert bs[k..] == [];
      NothingRenumbered(1, c.signature);
      assert [initial] + [] == [initial];
    } else {
      WalkKept(c, mid, bs[k..], n - k, signature, payload);
    }
  }

  lemma NothingRenumbered(first: nat, signature: Option<uint32>)
    requires first < TWO_32
    ensures Renumbered([], first, signature) == []
  {
  }

  lemma WalkNothing(c: Setup, s: State, n: nat, bs: seq<Block>)
    requires HoldsBlocks(c, s.bytesRead, bs[|bs|..])
    ensures WalkBlocks(c, s, n) == Returned(s) && s.bytesRead == c.size
  {
  }
}
