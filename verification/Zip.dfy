/** Locating the data model in the archive: the end record of section 4.3.16 and the directory
    headers of section 4.3.12 of the PKWARE APPNOTE. */
module Zip {
  import opened Machine
  import opened Files

  const SIGNATURE_EOCD: uint32 := 0x504b_0506
  const WINDOW: nat := 4096
  const EOCD_SIZE: nat := 22
  const HEADER_SIZE: nat := 46

  /** `PK` 5 6 stands at position `p`. */
  predicate EocdAt(s: seq<byte>, p: int) {
    0 <= p && p + 4 <= |s| && s[p..p + 4] == [0x50, 0x4b, 0x05, 0x06]
  }

  /** The search of the reversed buffer for the stored bytes of the constant, in memory order: the
      reversed order makes the first match the last occurrence of `PK` 5 6. */
  method SearchReversed(buffer: seq<byte>) returns (found: Option<nat>)
    ensures match found
            case Some(p) => EocdAt(buffer, p) && forall q :: EocdAt(buffer, q) ==> q <= p
            case None => forall q :: !EocdAt(buffer, q)
  {
    var pattern := LeBytes(SIGNATURE_EOCD, 4);
    PatternBytes();
    var start := 0;
    while start + 4 <= |buffer|
      invariant forall q :: EocdAt(buffer, q) ==> q + 4 + start <= |buffer|
    {
      var p := |buffer| - start - 4;
      if buffer[p + 3] == pattern[0] && buffer[p + 2] == pattern[1] && buffer[p + 1] == pattern[2]
         && buffer[p] == pattern[3] {
        assert buffer[p..p + 4] == [0x50, 0x4b, 0x05, 0x06];
        return Some(p);
      }
      assert !EocdAt(buffer, p);
      start := start + 1;
    }
    return None;
  }

  lemma PatternBytes()
    ensures LeBytes(SIGNATURE_EOCD, 4) == [0x06, 0x05, 0x4b, 0x50]
  {
    assert LeBytes(0x50, 1) == [0x50];
    assert LeBytes(0x504b, 2) == [0x4b] + LeBytes(0x50, 1);
    assert LeBytes(0x504b05, 3) == [0x05] + LeBytes(0x504b, 2);
  }

  /** Where the end record is taken to be: the last signature in the final `WINDOW` bytes. */
  ghost predicate EndFound(data: seq<byte>, p: nat) {
    EocdAt(data, p) && |data| - Min(|data|, WINDOW) <= p && forall q :: EocdAt(data, q) ==> q <= p
  }

  ghost predicate NoEnd(data: seq<byte>) {
    forall q :: EocdAt(data, q) ==> q < |data| - Min(|data|, WINDOW)
  }

  lemma WindowMatches(data: seq<byte>, buffer: seq<byte>, from: nat, q: int)
    requires from == |data| - Min(|data|, WINDOW) && |buffer| == WINDOW
    requires buffer == data[from..] + seq(WINDOW - (|data| - from), _ => 0)
    ensures EocdAt(buffer, q) <==> q >= 0 && EocdAt(data, from + q)
  {
    if EocdAt(buffer, q) {
      assert buffer[q + 3] == buffer[q..q + 4][3] == 0x06;
      assert from + q + 3 < |data|;
      assert data[from + q..from + q + 4] == buffer[q..q + 4];
    }
    if q >= 0 && EocdAt(data, from + q) {
      assert data[from + q..from + q + 4] == buffer[q..q + 4];
    }
  }

  /** `findEndOfCentralDirectory`. */
  method FindEndOfCentralDirectory(file: FileHandle) returns (found: bool, eocd: seq<byte>, ghost at: nat)
    modifies file`pos
    ensures found ==> EndFound(file.data, at) && eocd == BytesAt(file.data, at, EOCD_SIZE)
    ensures !found ==> NoEnd(file.data)
  {
    var fileSize := |file.data|;
    var searchOffset := Min(fileSize, WINDOW);
    file.Seek(fileSize - searchOffset);
    var read := file.Read(searchOffset);
    var buffer := read + seq(WINDOW - searchOffset, _ => 0);
    var foundPos := SearchReversed(buffer);
    forall q
      ensures EocdAt(buffer, q) <==> q >= 0 && EocdAt(file.data, fileSize - searchOffset + q)
    {
      WindowMatches(file.data, buffer, fileSize - searchOffset, q);
    }
    eocd, at := [], 0;
    if foundPos.Some? {
      var offset := foundPos.value;
      file.Seek(fileSize - searchOffset + offset);
      eocd := file.Read(EOCD_SIZE);
      at := fileSize - searchOffset + offset;
      forall q | EocdAt(file.data, q)
        ensures q <= at
      {
        if q >= fileSize - searchOffset {
          assert EocdAt(buffer, q - (fileSize - searchOffset));
        }
      }
      return true, eocd, at;
    }
    forall q | EocdAt(file.data, q)
      ensures q < fileSize - searchOffset
    {
      assert q < fileSize - searchOffset || EocdAt(buffer, q - (fileSize - searchOffset));
    }
    found := false;
  }

  // ----- the directory

  /** One header as the walk sees it: name, offset and size fields of the bytes at `position`. */
  function NameAt(data: seq<byte>, position: nat): seq<byte> {
    BytesAt(data, position + HEADER_SIZE, U16At(data, position + 28))
  }

  function NextHeader(data: seq<byte>, position: nat): nat {
    position + HEADER_SIZE + U16At(data, position + 28) + U16At(data, position + 30) + U16At(data, position + 32)
  }

  const DATA_MODEL: seq<byte> := [0x44, 0x61, 0x74, 0x61, 0x4d, 0x6f, 0x64, 0x65, 0x6c]

  /** The local header offset and compressed size of the first of `n` headers named DataModel. */
  function WalkDirectory(data: seq<byte>, position: nat, n: nat): Result<(uint32, uint32)>
    decreases n
  {
    if n == 0 then Threw
    else if NameAt(data, position) == DATA_MODEL then Returned((U32At(data, position + 42), U32At(data, position + 20)))
    else WalkDirectory(data, NextHeader(data, position), n - 1)
  }

  function FieldOf(header: seq<byte>, at: nat, n: nat): nat
    requires at + n <= |header|
  {
    LeValue(header[at..at + n])
  }

  lemma FieldRead(data: seq<byte>, position: nat, size: nat, at: nat, n: nat)
    requires at + n <= size
    ensures BytesAt(data, position, size)[at..at + n] == BytesAt(data, position + at, n)
  {
  }

  lemma HeaderFields(data: seq<byte>, position: nat, header: seq<byte>)
    requires header == BytesAt(data, position, HEADER_SIZE)
    ensures FieldOf(header, 20, 4) == U32At(data, position + 20)
    ensures FieldOf(header, 28, 2) == U16At(data, position + 28)
    ensures FieldOf(header, 30, 2) == U16At(data, position + 30)
    ensures FieldOf(header, 32, 2) == U16At(data, position + 32)
    ensures FieldOf(header, 42, 4) == U32At(data, position + 42)
  {
    hide LeValue;
    FieldRead(data, position, HEADER_SIZE, 20, 4);
    FieldRead(data, position, HEADER_SIZE, 28, 2);
    FieldRead(data, position, HEADER_SIZE, 30, 2);
    FieldRead(data, position, HEADER_SIZE, 32, 2);
    FieldRead(data, position, HEADER_SIZE, 42, 4);
  }

  /** Reading past a short header still reads what stands after it: nothing. */
  lemma AfterShortRead(data: seq<byte>, position: nat, cursor: nat, n: nat)
    requires cursor == if position + HEADER_SIZE <= |data| then position + HEADER_SIZE
                       else if position <= |data| then |data| else position
    ensures BytesAt(data, cursor, n) == BytesAt(data, position + HEADER_SIZE, n)
  {
  }

  /** The loop of `findDataModel`. */
  method WalkHeaders(file: FileHandle, directoryOffset: uint32, numEntries: uint16)
    returns (r: Result<(uint32, uint32)>)
    modifies file`pos
    ensures r == WalkDirectory(file.data, directoryOffset, numEntries)
  {
    hide LeValue, BytesAt;
    file.Seek(directoryOffset);
    var position: nat := directoryOffset;
    for i := 0 to numEntries
      invariant file.pos == position
      invariant WalkDirectory(file.data, directoryOffset, numEntries)
             == WalkDirectory(file.data, position, numEntries - i)
    {
      var headerBuffer := file.Read(HEADER_SIZE);
      HeaderFields(file.data, position, headerBuffer);
      var fileNameLength := FieldOf(headerBuffer, 28, 2);
      AfterShortRead(file.data, position, file.pos, fileNameLength);
      var filename := file.Read(fileNameLength);
      var header := position;
      position := position + HEADER_SIZE + fileNameLength;
      if filename == DATA_MODEL {
        return Returned((FieldOf(headerBuffer, 42, 4), FieldOf(headerBuffer, 20, 4)));
      }
      position := position + FieldOf(headerBuffer, 30, 2) + FieldOf(headerBuffer, 32, 2);
      file.Seek(position);
    }
    return Threw;
  }

  function DirectoryAfter(data: seq<byte>, eocd: nat): Result<(uint32, uint32)> {
    WalkDirectory(data, U32At(data, eocd + 16), U16At(data, eocd + 10))
  }

  /** `findDataModel`: the walk from the end record that was found. */
  method FindDataModel(file: FileHandle) returns (r: Result<(uint32, uint32)>)
    modifies file`pos
    ensures forall p: nat :: EndFound(file.data, p) ==> r == DirectoryAfter(file.data, p)
    ensures NoEnd(file.data) ==> r == Threw
  {
    hide LeValue, BytesAt;
    var found, eocd, at := FindEndOfCentralDirectory(file);
    if !found {
      return Threw;
    }
    FieldRead(file.data, at, EOCD_SIZE, 16, 4);
    FieldRead(file.data, at, EOCD_SIZE, 10, 2);
    LeWidth(eocd[16..20]);
    LeWidth(eocd[10..12]);
    r := WalkHeaders(file, FieldOf(eocd, 16, 4), FieldOf(eocd, 10, 2));
  }

  // ----- the writer

  /** A directory entry; `made` and `kept` are the fields nothing here looks at. */
  datatype DirEntry = DirEntry(made: seq<byte>, compressedSize: uint32, uncompressedSize: uint32, kept: seq<byte>,
                               localOffset: uint32, name: seq<byte>, extra: seq<byte>, comment: seq<byte>)

  predicate EntryFits(e: DirEntry) {
    |e.made| == 20 && |e.kept| == 8
    && |e.name| < 0x1_0000 && |e.extra| < 0x1_0000 && |e.comment| < 0x1_0000
  }

  function HeaderOf(e: DirEntry): (r: seq<byte>)
    requires EntryFits(e)
    ensures |r| == HEADER_SIZE
  {
    e.made + LeBytes(e.compressedSize, 4) + LeBytes(e.uncompressedSize, 4) + LeBytes(|e.name|, 2)
    + LeBytes(|e.extra|, 2) + LeBytes(|e.comment|, 2) + e.kept + LeBytes(e.localOffset, 4)
  }

  function EntryOf(e: DirEntry): seq<byte>
    requires EntryFits(e)
  {
    HeaderOf(e) + e.name + e.extra + e.comment
  }

  function DirectoryOf(es: seq<DirEntry>): seq<byte>
    requires forall i :: 0 <= i < |es| ==> EntryFits(es[i])
  {
    if es == [] then [] else EntryOf(es[0]) + DirectoryOf(es[1..])
  }

  /** The bytes of a text in ASCII. */
  function Ascii(text: string): (bytes: seq<byte>)
    requires forall i :: 0 <= i < |text| ==> text[i] < 128 as char
  {
    seq(|text|, i requires 0 <= i < |text| => text[i] as int)
  }

  lemma DataModelIsAscii()
    ensures DATA_MODEL == Ascii("DataModel")
  {
  }

  function FirstDataModel(es: seq<DirEntry>): Result<(uint32, uint32)> {
    if es == [] then Threw
    else if es[0].name == Ascii("DataModel") then Returned((es[0].localOffset, es[0].compressedSize))
    else FirstDataModel(es[1..])
  }

  /** The fields of a written header are read back. */
  lemma HeaderStands(data: seq<byte>, position: nat, e: DirEntry)
    requires EntryFits(e) && StandsAt(data, position, HeaderOf(e))
    ensures U32At(data, position + 20) == e.compressedSize && U32At(data, position + 42) == e.localOffset
    ensures U16At(data, position + 28) == |e.name|
    ensures U16At(data, position + 30) == |e.extra| && U16At(data, position + 32) == |e.comment|
  {
    hide LeBytes, U16At, U32At, StandsAt;
    var f1 := e.made + LeBytes(e.compressedSize, 4);
    var f2 := f1 + LeBytes(e.uncompressedSize, 4);
    var f3 := f2 + LeBytes(|e.name|, 2);
    var f4 := f3 + LeBytes(|e.extra|, 2);
    var f5 := f4 + LeBytes(|e.comment|, 2);
    StandsParts(data, position, f5 + e.kept, LeBytes(e.localOffset, 4));
    U32Stands(data, position + 42, e.localOffset);
    StandsParts(data, position, f5, e.kept);
    StandsParts(data, position, f4, LeBytes(|e.comment|, 2));
    U16Stands(data, position + 32, |e.comment|);
    StandsParts(data, position, f3, LeBytes(|e.extra|, 2));
    U16Stands(data, position + 30, |e.extra|);
    StandsParts(data, position, f2, LeBytes(|e.name|, 2));
    U16Stands(data, position + 28, |e.name|);
    StandsParts(data, position, f1, LeBytes(e.uncompressedSize, 4));
    StandsParts(data, position, e.made, LeBytes(e.compressedSize, 4));
    U32Stands(data, position + 20, e.compressedSize);
  }

  lemma EntryStands(data: seq<byte>, position: nat, e: DirEntry)
    requires EntryFits(e) && StandsAt(data, position, EntryOf(e))
    ensures NameAt(data, position) == e.name
    ensures NextHeader(data, position) == position + |EntryOf(e)|
    ensures U32At(data, position + 20) == e.compressedSize && U32At(data, position + 42) == e.localOffset
  {
    hide HeaderOf, U16At, U32At;
    StandsParts(data, position, HeaderOf(e) + e.name + e.extra, e.comment);
    StandsParts(data, position, HeaderOf(e) + e.name, e.extra);
    StandsParts(data, position, HeaderOf(e), e.name);
    HeaderStands(data, position, e);
  }

  /** On any written directory the walk gives the first entry named DataModel, and throws exactly
      when there is none. */
  lemma {:induction false} DirectoryRoundTrip(data: seq<byte>, position: nat, es: seq<DirEntry>)
    requires forall i :: 0 <= i < |es| ==> EntryFits(es[i])
    requires StandsAt(data, position, DirectoryOf(es))
    ensures WalkDirectory(data, position, |es|) == FirstDataModel(es)
    decreases |es|
  {
    hide StandsAt, EntryOf, NameAt, NextHeader, U32At;
    if es == [] {
    } else {
      StandsParts(data, position, EntryOf(es[0]), DirectoryOf(es[1..]));
      EntryStands(data, position, es[0]);
      DirectoryRoundTrip(data, position + |EntryOf(es[0])|, es[1..]);
    }
  }

  lemma {:induction false} FirstDataModelIs(es: seq<DirEntry>)
    ensures FirstDataModel(es) == Threw <==> forall i :: 0 <= i < |es| ==> es[i].name != Ascii("DataModel")
    ensures FirstDataModel(es).Returned? ==>
              exists i :: 0 <= i < |es| && es[i].name == Ascii("DataModel")
                && FirstDataModel(es).value == (es[i].localOffset, es[i].compressedSize)
                && forall j :: 0 <= j < i ==> es[j].name != Ascii("DataModel")
  {
    if es == [] {
    } else if es[0].name == Ascii("DataModel") {
    } else {
      FirstDataModelIs(es[1..]);
      assert es == [es[0]] + es[1..];
      if FirstDataModel(es).Returned? {
        var i :| 0 <= i < |es[1..]| && es[1..][i].name == Ascii("DataModel")
                 && FirstDataModel(es[1..]).value == (es[1..][i].localOffset, es[1..][i].compressedSize)
                 && forall j :: 0 <= j < i ==> es[1..][j].name != Ascii("DataModel");
        assert es[i + 1] == es[1..][i];
        forall j | 0 <= j < i + 1
          ensures es[j].name != Ascii("DataModel")
        {
          assert j > 0 ==> es[j] == es[1..][j - 1];
        }
      }
    }
  }

  /** The end record for `n` entries whose headers start at `offset`. */
  function EocdOf(n: uint16, size: uint32, offset: uint32, commentLength: uint16): (r: seq<byte>)
    ensures |r| == EOCD_SIZE
  {
    [0x50, 0x4b, 0x05, 0x06] + LeBytes(0, 2) + LeBytes(0, 2) + LeBytes(n, 2) + LeBytes(n, 2)
    + LeBytes(size, 4) + LeBytes(offset, 4) + LeBytes(commentLength, 2)
  }

  lemma EocdStands(data: seq<byte>, p: nat, n: uint16, size: uint32, offset: uint32, commentLength: uint16)
    requires StandsAt(data, p, EocdOf(n, size, offset, commentLength))
    ensures EocdAt(data, p) && U16At(data, p + 10) == n && U32At(data, p + 16) == offset
  {
    hide LeBytes, U16At, U32At, StandsAt, EocdAt;
    var magic: seq<byte> := [0x50, 0x4b, 0x05, 0x06];
    var f1 := magic + LeBytes(0, 2) + LeBytes(0, 2) + LeBytes(n, 2);
    var f2 := f1 + LeBytes(n, 2);
    var f3 := f2 + LeBytes(size, 4);
    StandsParts(data, p, f3 + LeBytes(offset, 4), LeBytes(commentLength, 2));
    StandsParts(data, p, f3, LeBytes(offset, 4));
    U32Stands(data, p + 16, offset);
    StandsParts(data, p, f2, LeBytes(size, 4));
    StandsParts(data, p, f1, LeBytes(n, 2));
    U16Stands(data, p + 10, n);
    StandsParts(data, p, magic + LeBytes(0, 2) + LeBytes(0, 2), LeBytes(n, 2));
    StandsParts(data, p, magic + LeBytes(0, 2), LeBytes(0, 2));
    StandsParts(data, p, magic, LeBytes(0, 2));
    MagicStands(data, p);
  }

  lemma MagicStands(data: seq<byte>, p: nat)
    requires StandsAt(data, p, [0x50, 0x4b, 0x05, 0x06])
    ensures EocdAt(data, p)
  {
  }

  /** A whole archive: entry data, directory, end record, archive comment. */
  predicate Archive(data: seq<byte>, local: seq<byte>, es: seq<DirEntry>, comment: seq<byte>) {
    (forall i :: 0 <= i < |es| ==> EntryFits(es[i]))
    && |local| < TWO_32 && |es| < 0x1_0000 && |DirectoryOf(es)| < TWO_32 && |comment| < 0x1_0000
    && data == local + DirectoryOf(es) + EocdOf(|es|, |DirectoryOf(es)|, |local|, |comment|) + comment
  }

  function EocdPosition(local: seq<byte>, es: seq<DirEntry>): nat
    requires forall i :: 0 <= i < |es| ==> EntryFits(es[i])
  {
    |local| + |DirectoryOf(es)|
  }

  /** What an archiver has written behind the first byte of the signature. */
  function Behind(local: seq<byte>, es: seq<DirEntry>, comment: seq<byte>): seq<byte>
    requires (forall i :: 0 <= i < |es| ==> EntryFits(es[i]))
    requires |local| < TWO_32 && |es| < 0x1_0000 && |DirectoryOf(es)| < TWO_32 && |comment| < 0x1_0000
  {
    EocdOf(|es|, |DirectoryOf(es)|, |local|, |comment|)[1..] + comment
  }

  predicate HoldsSignature(s: seq<byte>) {
    exists q :: 0 <= q <= |s| - 4 && EocdAt(s, q)
  }

  lemma LaterSignature(data: seq<byte>, at: nat, behind: seq<byte>)
    requires at < |data| && data[at + 1..] == behind
    ensures (exists q :: q > at && EocdAt(data, q)) <==> HoldsSignature(behind)
  {
    if q :| q > at && EocdAt(data, q) {
      assert behind[q - at - 1..q - at + 3] == data[q..q + 4];
      assert EocdAt(behind, q - at - 1);
    }
    if q :| 0 <= q <= |behind| - 4 && EocdAt(behind, q) {
      assert data[at + 1 + q..at + 5 + q] == behind[q..q + 4];
      assert EocdAt(data, at + 1 + q);
    }
  }

  /** The end record proper is the one found exactly when the comment leaves it in the window and no
      signature stands in the numbers of the record and the comment. */
  lemma EndFoundIff(data: seq<byte>, local: seq<byte>, es: seq<DirEntry>, comment: seq<byte>)
    requires Archive(data, local, es, comment)
    ensures EndFound(data, EocdPosition(local, es))
        <==> |comment| + 22 <= 4096 && !HoldsSignature(Behind(local, es, comment))
  {
    hide EocdOf, DirectoryOf, EocdAt, HoldsSignature;
    var at := EocdPosition(local, es);
    var record := EocdOf(|es|, |DirectoryOf(es)|, |local|, |comment|);
    assert data[at..at + |record|] == record;
    EocdStands(data, at, |es|, |DirectoryOf(es)|, |local|, |comment|);
    assert data[at + 1..] == Behind(local, es, comment);
    LaterSignature(data, at, Behind(local, es, comment));
  }

  /** On a written archive that meets that condition the first DataModel entry is found, and the
      lookup throws exactly when there is none. */
  lemma ArchiveRoundTrip(data: seq<byte>, local: seq<byte>, es: seq<DirEntry>, comment: seq<byte>)
    requires Archive(data, local, es, comment)
    requires |comment| + 22 <= 4096 && !HoldsSignature(Behind(local, es, comment))
    ensures EndFound(data, EocdPosition(local, es))
    ensures DirectoryAfter(data, EocdPosition(local, es)) == FirstDataModel(es)
  {
    hide EocdOf, DirectoryOf, EocdAt, U16At, U32At, WalkDirectory, HoldsSignature;
    EndFoundIff(data, local, es, comment);
    var at := EocdPosition(local, es);
    var record := EocdOf(|es|, |DirectoryOf(es)|, |local|, |comment|);
    assert data[at..at + |record|] == record;
    EocdStands(data, at, |es|, |DirectoryOf(es)|, |local|, |comment|);
    assert data[|local|..|local| + |DirectoryOf(es)|] == DirectoryOf(es);
    DirectoryRoundTrip(data, |local|, es);
  }

  /** A comment that is itself an end record without entries misleads the search in every archive: the
      lookup throws whatever the directory holds. */
  lemma MisleadingComment(data: seq<byte>, local: seq<byte>, es: seq<DirEntry>)
    requires Archive(data, local, es, EocdOf(0, 0, 0, 0))
    ensures EndFound(data, |data| - EOCD_SIZE) && DirectoryAfter(data, |data| - EOCD_SIZE) == Threw
  {
    hide EocdOf, DirectoryOf, EocdAt, U16At, U32At;
    var at := |data| - EOCD_SIZE;
    assert data[at..at + EOCD_SIZE] == EocdOf(0, 0, 0, 0);
    EocdStands(data, at, 0, 0, 0, 0);
    NoneBehind(data, at);
  }

  lemma EmptyRecord()
    ensures EocdOf(0, 0, 0, 0)[1..4] == [0x4b, 0x05, 0x06]
    ensures forall i :: 4 <= i < EOCD_SIZE ==> EocdOf(0, 0, 0, 0)[i] == 0
  {
    assert LeBytes(0, 2) == [0, 0];
    assert LeBytes(0, 4) == [0] + LeBytes(0, 3) && LeBytes(0, 3) == [0] + LeBytes(0, 2);
  }

  lemma NoneBehind(data: seq<byte>, at: nat)
    requires at + EOCD_SIZE == |data| && data[at..] == EocdOf(0, 0, 0, 0)
    ensures forall q :: EocdAt(data, q) ==> q <= at
  {
    hide EocdOf;
    EmptyRecord();
    forall q | at < q < |data|
      ensures data[q] != 0x50
    {
      assert data[q] == data[at..][q - at];
      assert q - at < 4 ==> data[at..][q - at] == data[at..][1..4][q - at - 1];
    }
    forall q | EocdAt(data, q)
      ensures data[q] == 0x50
    {
      assert data[q] == data[q..q + 4][0];
    }
  }
}
