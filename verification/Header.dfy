/** The 32-byte block header: renumbering, the session signature and the checksum, and what the
    decompressor demands of it. */
module Header {
  import opened Machine
  import opened Files
  import opened Crc
  import opened CrcLaws

  const HEADER_BYTES: nat := 32
  const XPRESS9_MAGIC: uint32 := 0x4e86d72a

  /** The checksum of a header's first 28 bytes. */
  function HeaderCrc(front: seq<byte>): uint32 {
    Number32(Checksum(front, 0))
  }

  /** The header of a block as it is kept in memory; the fields lie in this order. */
  class Header {
    var xpressMagic: uint32
    var origSize: uint32
    var encodedSize: uint32
    var huffmanTableFlags: uint32
    var zero: uint32
    var sessionSignature: uint32
    var blockIndex: uint32
    var crc32: uint32

    constructor ()
      ensures xpressMagic == origSize == encodedSize == huffmanTableFlags == 0
      ensures zero == sessionSignature == blockIndex == crc32 == 0
    {
      xpressMagic, origSize, encodedSize, huffmanTableFlags := 0, 0, 0, 0;
      zero, sessionSignature, blockIndex, crc32 := 0, 0, 0, 0;
    }

    /** The bytes before the checksum. */
    function Front(): (r: seq<byte>)
      reads this
      ensures |r| == 28
    {
      LeBytes(xpressMagic, 4) + LeBytes(origSize, 4) + LeBytes(encodedSize, 4) + LeBytes(huffmanTableFlags, 4)
      + LeBytes(zero, 4) + LeBytes(sessionSignature, 4) + LeBytes(blockIndex, 4)
    }

    function Bytes(): (r: seq<byte>)
      reads this
      ensures |r| == HEADER_BYTES
    {
      Front() + LeBytes(crc32, 4)
    }

    lemma SignatureBytes()
      ensures Bytes()[20..24] == Front()[20..24] == LeBytes(sessionSignature, 4)
    {
      var five := LeBytes(xpressMagic, 4) + LeBytes(origSize, 4) + LeBytes(encodedSize, 4)
                  + LeBytes(huffmanTableFlags, 4) + LeBytes(zero, 4);
      assert |five| == 20;
      assert Front() == five + LeBytes(sessionSignature, 4) + LeBytes(blockIndex, 4);
    }

    method UpdateCrc()
      modifies this`crc32
      ensures crc32 == HeaderCrc(Front())
    {
      var crc := Crc32(Front(), 0);
      crc32 := Number32(crc);
    }

    /** The fields are taken from the buffer if it is long enough, and stay zero otherwise. */
    static method ExtractFromBuffer(buffer: array<byte>, offset: nat) returns (header: Header)
      ensures fresh(header)
      ensures offset + HEADER_BYTES > buffer.Length ==>
                header.sessionSignature == 0 && header.Bytes() == seq(HEADER_BYTES, _ => 0)
      ensures offset + HEADER_BYTES <= buffer.Length ==> header.Bytes() == buffer[offset..offset + HEADER_BYTES]
    {
      header := new Header();
      ZeroBytes();
      if offset + HEADER_BYTES <= buffer.Length {
        var s := buffer[offset..offset + HEADER_BYTES];
        HeaderParts(s);
        header.xpressMagic := LeWord(s[0..4]);
        header.origSize := LeWord(s[4..8]);
        header.encodedSize := LeWord(s[8..12]);
        header.huffmanTableFlags := LeWord(s[12..16]);
        header.zero := LeWord(s[16..20]);
        header.sessionSignature := LeWord(s[20..24]);
        header.blockIndex := LeWord(s[24..28]);
        header.crc32 := LeWord(s[28..32]);
      }
    }

    method InsertIntoBuffer(buffer: array<byte>, offset: nat)
      modifies buffer
      ensures buffer[..] == if offset + HEADER_BYTES <= buffer.Length
                            then old(buffer[..offset]) + Bytes() + old(buffer[offset + HEADER_BYTES..])
                            else old(buffer[..])
    {
      if offset + HEADER_BYTES <= buffer.Length {
        var bytes := Bytes();
        forall i | 0 <= i < HEADER_BYTES {
          buffer[offset + i] := bytes[i];
        }
      }
    }
  }

  lemma ZeroBytes()
    ensures LeBytes(0, 4) == seq(4, _ => 0)
  {
    assert LeBytes(0, 3) == [0] + LeBytes(0, 2) && LeBytes(0, 1) == [0];
  }

  function LeWord(s: seq<byte>): (w: uint32)
    requires |s| == 4
    ensures LeBytes(w, 4) == s
  {
    LeWidth(s);
    LeWritten(s);
    LeValue(s)
  }

  lemma HeaderParts(s: seq<byte>)
    requires |s| == HEADER_BYTES
    ensures s == s[0..4] + s[4..8] + s[8..12] + s[12..16] + s[16..20] + s[20..24] + s[24..28] + s[28..32]
  {
  }

  /** What patching makes of a block: bytes 24 to 28 are the index, bytes 20 to 24 the signature if
      one is given, bytes 28 to 32 the checksum of the 28 before; a block without a whole header is
      left alone. */
  function Patched(block: seq<byte>, index: uint32, signature: Option<uint32>): (r: seq<byte>)
    ensures |r| == |block|
  {
    if |block| < HEADER_BYTES then block
    else
      var front := block[..20] + (match signature case Some(s) => LeBytes(s, 4) case None => block[20..24])
                   + LeBytes(index, 4);
      front + LeBytes(HeaderCrc(front), 4) + block[HEADER_BYTES..]
  }

  /** `patch_header_of_compressed_buffer`, both versions. */
  method PatchHeaderOfCompressedBuffer(buffer: array<byte>, blockIndexIterator: uint32, signature: Option<uint32>)
    returns (next: uint32)
    modifies buffer
    ensures next == Wrap32(blockIndexIterator + 1)
    ensures buffer[..] == Patched(old(buffer[..]), next, signature)
  {
    hide LeBytes, HeaderCrc, Checksum;
    next := Wrap32(blockIndexIterator + 1);
    ghost var block := buffer[..];
    var header := Header.ExtractFromBuffer(buffer, 0);
    ghost var before := header.Front();
    if HEADER_BYTES <= buffer.Length {
      assert block[..HEADER_BYTES] == header.Bytes();
      assert block[..28] == before;
    }
    header.blockIndex := next;
    if signature.Some? {
      header.sessionSignature := signature.value;
    }
    header.UpdateCrc();
    header.InsertIntoBuffer(buffer, 0);
    if HEADER_BYTES <= buffer.Length {
      assert before[..20] == header.Front()[..20];
      assert before[20..24] == block[20..24];
      assert header.Front() == block[..20]
        + (match signature case Some(s) => LeBytes(s, 4) case None => block[20..24]) + LeBytes(next, 4);
    }
  }

  // ----- the decompressor's view

  /** A decoding session: the signature of its first block and the index it expects next. */
  datatype Session = Session(signature: uint32, next: uint32)

  /** The header checks of `Xpress9DecoderFetchDecompressedData` inside a session, in the fields the
      patch touches or relies on. */
  predicate Accepts(s: Session, block: seq<byte>) {
    |block| >= HEADER_BYTES
    && U32At(block, 0) == XPRESS9_MAGIC
    && U32At(block, 24) == s.next
    && U32At(block, 20) == s.signature
    && U32At(block, 16) == 0
    && U32At(block, 28) == HeaderCrc(block[..28])
  }

  lemma PatchedFields(block: seq<byte>, index: uint32, signature: Option<uint32>)
    requires |block| >= HEADER_BYTES
    ensures var p := Patched(block, index, signature);
            U32At(p, 24) == index
            && U32At(p, 20) == (if signature.Some? then signature.value else U32At(block, 20))
            && U32At(p, 28) == HeaderCrc(p[..28])
            && p[..20] == block[..20] && p[HEADER_BYTES..] == block[HEADER_BYTES..]
  {
    hide LeBytes, LeValue, Checksum, HeaderCrc;
    var sig := match signature case Some(s) => LeBytes(s, 4) case None => block[20..24];
    var p := Patched(block, index, signature);
    var front := block[..20] + sig + LeBytes(index, 4);
    assert p[..28] == front;
    assert p[..20] == block[..20];
    assert BytesAt(p, 20, 4) == sig;
    assert BytesAt(p, 24, 4) == LeBytes(index, 4);
    assert BytesAt(p, 28, 4) == LeBytes(HeaderCrc(front), 4);
    Le32(index);
    Le32(HeaderCrc(front));
    if signature.Some? {
      Le32(signature.value);
    }
    assert p[HEADER_BYTES..] == block[HEADER_BYTES..];
  }

  /** A patched block passes the header checks exactly when the parts the patch keeps do: whatever
      number and checksum the block had before, it is taken as the next of the session. */
  lemma PatchedAcceptedIff(s: Session, block: seq<byte>, signature: Option<uint32>)
    ensures Accepts(s, Patched(block, s.next, signature))
        <==> |block| >= HEADER_BYTES
             && U32At(block, 0) == XPRESS9_MAGIC && U32At(block, 16) == 0
             && (if signature.Some? then signature.value else U32At(block, 20)) == s.signature
  {
    hide LeValue, Patched, HeaderCrc;
    if |block| >= HEADER_BYTES {
      PatchedFields(block, s.next, signature);
      var p := Patched(block, s.next, signature);
      assert BytesAt(p, 0, 4) == p[..20][..4] == block[..20][..4] == BytesAt(block, 0, 4);
      assert BytesAt(p, 16, 4) == p[..20][16..] == block[..20][16..] == BytesAt(block, 16, 4);
    }
  }

  lemma WordTells(a: bv32, b: bv32)
    requires Number32(a) == Number32(b)
    ensures a == b
  {
    assert (a as int) as bv32 == a && (b as int) as bv32 == b;
  }

  /** A block that has only its number replaced. */
  function WithIndex(block: seq<byte>, index: uint32): (r: seq<byte>)
    requires |block| >= HEADER_BYTES
    ensures |r| == |block|
  {
    block[..24] + LeBytes(index, 4) + block[28..]
  }

  /** The new checksum is needed: a block the session took under its own number, renumbered and
      left with its old checksum, is taken as the next block exactly when the new number is the old one. */
  lemma OldCrcAcceptedIff(signature: uint32, block: seq<byte>, number: uint32, index: uint32)
    requires Accepts(Session(signature, number), block)
    ensures Accepts(Session(signature, index), WithIndex(block, index)) <==> index == number
  {
    hide LeValue, LeBytes, Checksum, Number32;
    var r := WithIndex(block, index);
    assert BytesAt(r, 0, 4) == BytesAt(block, 0, 4) && BytesAt(r, 16, 4) == BytesAt(block, 16, 4);
    assert BytesAt(r, 20, 4) == BytesAt(block, 20, 4) && BytesAt(r, 28, 4) == BytesAt(block, 28, 4);
    assert BytesAt(r, 24, 4) == LeBytes(index, 4);
    Le32(index);
    var was := block[24..28];
    assert BytesAt(block, 24, 4) == was;
    LeWritten(was);
    assert block[..28] == block[..24] + was && r[..28] == block[..24] + LeBytes(index, 4);
    if HeaderCrc(r[..28]) == HeaderCrc(block[..28]) {
      WordTells(Checksum(r[..28], 0), Checksum(block[..28], 0));
      ChecksumTells(block[..24], was, LeBytes(index, 4), 0);
    }
  }

  /** A header's checksum is right exactly when the checksum of the whole header is the residue. */
  lemma HeaderCrcIff(block: seq<byte>)
    requires |block| >= HEADER_BYTES
    ensures U32At(block, 28) == HeaderCrc(block[..28]) <==> Checksum(block[..32], 0) == 0x4867_4BC7
  {
    hide LeBytes, LeValue, Checksum, Number32;
    var front, last := block[..28], block[28..32];
    assert BytesAt(block, 28, 4) == last && block[..32] == front + last;
    LeWritten(last);
    Le32(HeaderCrc(front));
    Residue(front);
    if Checksum(block[..32], 0) == 0x4867_4BC7 {
      ChecksumTells(front, last, LeBytes(HeaderCrc(front), 4), 0);
    }
  }

  /** So is that of every patched block. */
  lemma PatchedResidue(block: seq<byte>, index: uint32, signature: Option<uint32>)
    requires |block| >= HEADER_BYTES
    ensures Checksum(Patched(block, index, signature)[..32], 0) == 0x4867_4BC7
  {
    hide Patched, Checksum, HeaderCrc, U32At;
    PatchedFields(block, index, signature);
    HeaderCrcIff(Patched(block, index, signature));
  }
}
