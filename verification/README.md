# Verified model of duckdb-pbix-extension

The extension reads Power BI (`.pbix`) files: it finds the `DataModel` entry of a ZIP archive,
decompresses the tail of an XPress9 stream of blocks, reads a SQLite metadata database out of it and
decodes VertiPaq columns. This project models the algorithms on that path and proves what they
promise, for all inputs. It has four parts.

- **VertiPaq columns.** `Idf` (the segment file), `BitPacking`, `Hybrid` (run lengths mixed with packed
  values), `CanonicalCode`, `PrefixCodes`, `EncodeArray`, `Latin1`, `BitStream`, `Huffman`,
  `InsertionOrder`, `HuffmanDecode` (compressed string pages), `Dictionary`, `DictionaryRoundTrip`,
  `UnusedZeros`, `Column`, `ColumnRoundTrip`.
- **Windowed reading of the model.** `Crc`, `CrcLaws`, `Header`, `Blocks` (skip, patch, decompress), `Window`,
  `WindowedRead` (addressing by `offset - skip_offset`), `WindowedRoundTrip` (from contents to a file and back).
- **The parallel scan.** `Dispenser` (row-id slices handed out under a lock), `Scan` (one thread, turn by
  turn), `ScanSystem` (any number of threads, any interleaving).
- **ZIP lookup.** `Zip`. `Files` holds the file with a cursor, `Machine` the integer widths, bytes and
  outcomes.

Code that updates variables or objects in place is a method or a class here, proved against a function
of the same inputs; what the program is for is proved about that function, with an encoder or writer as
its inverse. `Threw` is a C++ exception leaving the call. `Undefined` is a run C++ does not define: a
null child followed, an element read outside its container, an `int` counted past its end. Integer
widths, wrap-around and conversions to `int` are written out where a value can reach them.

`dafny verify dfyconfig.toml` checks everything.

## What the code does not do

Each of these is a lemma with a concrete input, or an exact condition a caller can check.

- `Hybrid.HybridRoundTrip`, `CollisionExample`: a run of equal values is taken for packed values when its
  value and the number of values packed before it add up to 4294967295. As long as no packed value at place i
  is 4294967295 - i, nor the base at the place after them, rows are read back if and only if this never
  happens. `CoincidenceExample` shows why that side condition is there.
- `ScanSystem.AllRowsReturned`, `AllRowsReturnedIff`, `Dispenser.LastRowMissedExample`: the guard
  `position < max_row_id` and inclusive slices leave out the row with the largest id, in every interleaving,
  when the number of ids from the smallest is a multiple of 122880 and no group of that size is without rows.
  When it is not a multiple, no row of any table is left out. `ScanSystem.FinishedRun` says which rows any
  finished run returns.
- `ColumnRoundTrip.NullAdjustmentIff`, `LostStringExample`: in a nullable column whose first data id is 0 every
  packed value reads as null, because the id before the first wraps at 32 bits and is then widened. Runs of
  equal ids hold the ids themselves and keep their strings.
- `DictionaryRoundTrip.ReadsBack`: a dictionary with strings has its data ids as keys if and only if the
  first id and the number of strings add up to less than 2^31.
- `WindowedRead.WindowedReadIsFullRead`: a range of 2^31 bytes or more is never returned, because its size is
  passed as an `int`.
- `WindowedRead.AddressingIff`: `offset - skip_offset` is the right place if and only if nothing was skipped
  or the range starts behind the skipped blocks. The initial block, too, is misread after a skip.
- `InsertionOrder.SameTreeIff`, `ThreeOfOneExample`: a table that gives a length to more symbols than there are
  words of it has a tree that depends on the order of a hash map.
- `UnusedZeros.PaddingShiftsIff`: unused zeros of a plain page shift the ids of all strings behind it; ids are
  right if and only if there are only empty strings behind such a page.
- `Idf.IdfRoundTrip`: a segment is read back if and only if its counts are below 2^31.
- `HuffmanDecode.EmptyCodeLeaf`: a table without any code makes even an empty bit range decode to one character.
- `ColumnRoundTrip.CellsReadBack`: an empty string and a missing id read as null alike.
- `Column.ReadState.Read`: a column shorter than the first leaves cells of a chunk unset, and is then read
  outside its vector.
- `Zip.EndFoundIff`, `MisleadingComment`: the end record is found if and only if the archive comment leaves it
  within the last 4096 bytes and no signature stands in its numbers and the comment.

## Model

| member | source | states |
|---|---|---|
| `EncodeArray.DecompressEncodeArray` | src/vertipaq/huffman_decoder.cpp:15-25 | the low nibble of byte i is length 2i and the high one length 2i + 1, so the lengths pack back to the bytes, and all lengths past the input are zero |
| `EncodeArray.PackedOnce` | src/vertipaq/huffman_decoder.cpp:15-25 | only one table packs to given bytes, so the unpacked one is determined |
| `CanonicalCode.GenerateCodes` | src/vertipaq/huffman_decoder.cpp:28-58 | for every table, exactly the symbols of non-zero length get a word, and it is the code of section 3.2.2 of RFC 1951 (counts per length, first code per length, rank within it), cut to its length |
| `CanonicalCode.AssignCodes` | src/vertipaq/huffman_decoder.cpp:43-55 | the shift-and-count loop yields those words from any sorted arrangement of the table, whatever sort produced it |
| `CanonicalCode.Rfc1951Weight` | src/vertipaq/huffman_decoder.cpp:43-55 | the code, read at depth 15, equals the Kraft weight of all symbols before it in (length, symbol) order |
| `CanonicalCode.SortIsDetermined` | src/vertipaq/huffman_decoder.cpp:38-41 | two arrangements sorted by the comparator are equal, so the sorting algorithm does not matter |
| `CanonicalCode.LowBitsSuffix` | src/vertipaq/huffman_decoder.cpp:53 | the last `length` of fifteen binary digits are the low `length` bits of the code |
| `PrefixCodes.WordFits` | src/vertipaq/huffman_decoder.cpp:53 | under the Kraft inequality every code is below 2^length, so nothing is cut off, and a word covers the leaves straight after those of all words before it |
| `PrefixCodes.PrefixFreeIffKraft` | src/vertipaq/huffman_decoder.cpp:28-58 | no word is a prefix of another if and only if the Kraft sum of the table is at most one |
| `PrefixCodes.CounterFitsInt` | src/vertipaq/huffman_decoder.cpp:43-54 | the code counter never leaves a 32-bit `int`, for any table |
| `Huffman.Descend` | src/vertipaq/huffman_decoder.cpp:77-83 | one turn of the inner loop: the child exists afterwards, a missing one is new, and nothing else of the tree changes |
| `Huffman.AddCode` | src/vertipaq/huffman_decoder.cpp:75-85 | inserting a word in place adds exactly the missing nodes of its path and puts the symbol at its end |
| `Huffman.AddRealises` | src/vertipaq/huffman_decoder.cpp:74-86 | a tree of a code map becomes, by inserting one more word, the tree of the map with that word |
| `Huffman.BuiltRealises` | src/vertipaq/huffman_decoder.cpp:74-86 | any order of insertion gives a tree whose paths are exactly the prefixes of words, with a symbol of that word at each word and zero elsewhere |
| `Huffman.BuildFromCodes` | src/vertipaq/huffman_decoder.cpp:72-88 | the loop over the hash map, in whatever order it comes, builds on the heap the tree of one such order of all the words |
| `Huffman.BuildHuffmanTree` | src/vertipaq/huffman_decoder.cpp:69-89 | from a table of lengths: a freshly allocated, properly linked tree, built from the canonical code in some order |
| `Huffman.ShapeIsDetermined` | src/vertipaq/huffman_decoder.cpp:74-86 | two insertion orders of distinct words give the same tree |
| `Huffman.LeavesAreWords` | src/vertipaq/huffman_decoder.cpp:74-86 | in the tree of a prefix code a path is a leaf if and only if it is a word, and carries the symbol of that word |
| `Latin1.Iso88591ToUtf8` | src/vertipaq/huffman_decoder.cpp:3-12 | a Latin-1 byte becomes the octets section 3 of RFC 3629 prescribes for its code point |
| `Latin1.Utf8RoundTrip` | src/vertipaq/huffman_decoder.cpp:3-12 | reading the emitted UTF-8 back, refusing stray and overlong octets, gives the Latin-1 symbols |
| `BitStream.LayOutRoundTrip` | src/vertipaq/huffman_decoder.cpp:98-111 | any range of a bit string written most significant bit first into bytes swapped in pairs is read back by the position arithmetic of the decoder |
| `BitStream.MasksSwap` | src/vertipaq/huffman_decoder.cpp:103 | masking bit 0 of a byte index off and adding it back turned over gives the neighbour in the 16-bit pair |
| `BitStream.MaskSelects` | src/vertipaq/huffman_decoder.cpp:111 | a byte masked by a shifted one is non-zero if and only if that binary digit of the byte is one |
| `BitStream.EndOfBuffer` | src/vertipaq/huffman_decoder.cpp:103-111 | reading stays defined exactly for the bytes of the string and the zero that ends it, found at the place of the swap; that one reads as zero bits |
| `HuffmanDecode.TakeTurn` | src/vertipaq/huffman_decoder.cpp:98-115 | the masks of the source, on 32-bit and 8-bit words, take the child for the bit at that position of the stream; a `std::string` ends in a zero that may be read |
| `HuffmanDecode.DecodeSubstring` | src/vertipaq/huffman_decoder.cpp:91-124 | for any tree and any range, also one that wraps at 32 bits: the UTF-8 of the symbols of the walk over those bits, and undefined exactly when the walk leaves the tree or the range the buffer |
| `HuffmanDecode.WalkEncoded` | src/vertipaq/huffman_decoder.cpp:97-121 | for a prefix code, the walk over the words of a string followed by anything gives the string, then the walk of the rest from the root |
| `HuffmanDecode.WalkReads` | src/vertipaq/huffman_decoder.cpp:97-121 | conversely, bits on which the walk stays in the tree are the words of what it emits and an unfinished word |
| `HuffmanDecode.DecodesIff` | src/vertipaq/huffman_decoder.cpp:91-124 | a range decodes to given symbols if and only if it is their code words followed by a proper prefix of some word |
| `HuffmanDecode.DecodedIff` | src/vertipaq/huffman_decoder.cpp:91-124 | the same from the bytes: a range of a string decodes to the UTF-8 of given symbols if and only if its bits lie in the string and are their code words followed by a proper prefix of some word |
| `HuffmanDecode.HuffmanRoundTrip` | src/vertipaq/huffman_decoder.cpp:3-124 | for every table under the Kraft inequality, every string over its symbols and any surrounding bits, decoding exactly the bits of the encoded string gives its UTF-8, if and only if the table has a code at all |
| `HuffmanDecode.EmptyCodeLeaf` | src/vertipaq/huffman_decoder.cpp:118-121 | without any code an empty range decodes to the character zero |
| `Idf.KStream.ReadEntry` | src/vertipaq/column_data_idf.cpp:99-102 | reads two little-endian words from the cursor, or throws when fewer than 8 bytes are left |
| `Idf.KStream.ReadEntries` | src/vertipaq/column_data_idf.cpp:59-62 | the entry loop consumes as many entries as its count and leaves the rest of the stream |
| `Idf.KStream.ReadWords` | src/vertipaq/column_data_idf.cpp:65-68 | the same for the 64-bit words |
| `Idf.KStream.ReadSegment` | src/vertipaq/column_data_idf.cpp:56-69 | one segment; the loops count to the `int` conversion of the 64-bit size fields |
| `Idf.KStream.ReadAll` | src/vertipaq/column_data_idf.cpp:18-27 | segments up to the end of the stream, or an exception; ends because a segment takes at least 16 bytes |
| `Idf.ParsesIff` | src/vertipaq/column_data_idf.cpp:18-102 | a file parses to given segments if and only if it is their serialisation and the counts come out right; no byte is left over |
| `Idf.NegativeCounts` | src/vertipaq/column_data_idf.cpp:56-69 | a segment whose 64-bit counts become negative at 32 bits reads no entry and no word, however large the counts |
| `Idf.IdfRoundTrip` | src/vertipaq/column_data_idf.cpp:18-102 | a serialised segment list is read back if and only if every count is below 2^31 |
| `BitPacking.UnpackWord` | src/vertipaq/vertipaq_decoder.cpp:12-16 | the shifting loop appends the fields of a word, lowest first, with the base added modulo 2^64 |
| `BitPacking.ReadBitPacked` | src/vertipaq/vertipaq_decoder.cpp:6-19 | all words, in order, for widths 1 to 63 |
| `BitPacking.UnpackAt` | src/vertipaq/vertipaq_decoder.cpp:10-17 | the k-th value is the base plus field k mod n of word k div n, with n = 64 / width: no value spans two words |
| `BitPacking.UnpackLength` | src/vertipaq/vertipaq_decoder.cpp:10-17 | every word contributes 64 / width values |
| `BitPacking.PackRoundTrip` | src/vertipaq/vertipaq_decoder.cpp:6-19 | values packed 64 / width to a word come back first, and whatever follows them is the base |
| `Hybrid.ReadPrimary` | src/vertipaq/vertipaq_decoder.cpp:139-155 | the loop over the entries yields their rows, the pool being consumed in order; undefined when a packed stretch overruns it |
| `Hybrid.ReadRleBitPackedHybrid` | src/vertipaq/vertipaq_decoder.cpp:108-159 | from the bytes: the rows of the first segment only, an exception from the parser, or undefined behaviour for an empty vector or an unusable width |
| `Hybrid.ZeroWord` | src/vertipaq/vertipaq_decoder.cpp:125-134 | unpacking a single zero word gives the base everywhere, as the shortcut does |
| `Hybrid.PoolOfWritten` | src/vertipaq/vertipaq_decoder.cpp:120-135 | with or without the shortcut, the pool of a written segment starts with the packed values and continues with the base |
| `Hybrid.ShortcutRows` | src/vertipaq/vertipaq_decoder.cpp:120-127 | a packed stretch over a single zero word gives the base in every row, as far as the announced count goes, whatever the width |
| `Hybrid.NothingToTake` | src/vertipaq/vertipaq_decoder.cpp:120-148 | a non-empty packed stretch is undefined when no packed rows are announced, there is no word or the width is unusable |
| `Hybrid.RowsWithoutCollision` | src/vertipaq/vertipaq_decoder.cpp:140-155 | markers that count down by the values packed so far are read back to the runs they stand for when no run of equal values collides |
| `Hybrid.CollisionShows` | src/vertipaq/vertipaq_decoder.cpp:142 | a colliding run makes the rows wrong, unless a packed value is the marker of its own place |
| `Hybrid.HybridRoundTrip` | src/vertipaq/vertipaq_decoder.cpp:108-159 | any list of runs, a packed one written as 4294967295 less the values packed before it, parses and is read back row by row when no run of equal values with that sum stands among them; and only then, as long as no packed value at place i is 4294967295 - i, nor the base at the place after them |
| `Hybrid.RowCount` | src/vertipaq/vertipaq_decoder.cpp:140-155 | whatever the file says, the rows are as many as its repeat counts add up to |
| `Hybrid.CollisionExample` | src/vertipaq/vertipaq_decoder.cpp:142 | a run of 4294967295 before a packed 5 is not read back |
| `Hybrid.CoincidenceExample` | src/vertipaq/vertipaq_decoder.cpp:142 | a collision that packed values happen to make up for |
| `Dictionary.GroupHandles` | src/vertipaq/vertipaq_decoder.cpp:38-43 | the handles of every page id, in the order of the handles, however pages are interleaved |
| `Dictionary.BuiltIsTree` | src/vertipaq/vertipaq_decoder.cpp:54-56 | under the Kraft inequality the tree of a page is a function of its table alone, whatever order the hash map gave |
| `InsertionOrder.SameTreeIffInjective` | src/vertipaq/huffman_decoder.cpp:74-86 | all orders of insertion of a code map give the same tree if and only if no two symbols share a word: the last of them stays |
| `InsertionOrder.InjectiveIffCountsFit` | src/vertipaq/huffman_decoder.cpp:43-55 | the words of a table are all different if and only if no length is given to more symbols than 2^length |
| `InsertionOrder.SameTreeIff` | src/vertipaq/huffman_decoder.cpp:28-89 | hence the tree of a table is the same for every iteration order of the hash map if and only if its counts of lengths fit |
| `InsertionOrder.ThreeOfOneExample` | src/vertipaq/huffman_decoder.cpp:28-89 | three symbols of length one: two orders with different trees |
| `Dictionary.FillCompressed` | src/vertipaq/vertipaq_decoder.cpp:47-68 | for any stored table: the i-th range, up to the next handle or the total bits, is decoded by a tree of the table and stored under the next key; undefined when a range leaves tree or buffer, or the `int` index its type |
| `Dictionary.FillPlain` | src/vertipaq/vertipaq_decoder.cpp:69-79 | the tokens between NULs, the last also ended by the buffer, go under the next keys |
| `Dictionary.ReadDictionary` | src/vertipaq/vertipaq_decoder.cpp:32-82 | for any pages and handles: the table of all pages in page order, each read by a tree of its table, keys counting on from the `int` conversion of the first id |
| `DictionaryRoundTrip.PageRoundTrip` | src/vertipaq/vertipaq_decoder.cpp:46-79 | a written page, coded or plain, reads as its strings, whichever tree its table gave |
| `DictionaryRoundTrip.NulsSplit` | src/vertipaq/vertipaq_decoder.cpp:69-79 | strings without NUL, each ended by one, are split back, and every unused zero behind them gives an empty string |
| `DictionaryRoundTrip.FilledKeys` | src/vertipaq/vertipaq_decoder.cpp:33-77 | the keys are consecutive 64-bit values from the first `int` on and hold exactly the texts in order |
| `DictionaryRoundTrip.ReadsBack` | src/vertipaq/vertipaq_decoder.cpp:32-82 | for any written pages and any interleaving of their handles, the table has exactly the consecutive ids from the first and the k-th string seen, in page-then-handle order, under the k-th, if and only if there is no string or the first id and the number of strings add up to less than 2^31 |
| `UnusedZeros.HeldFirstIff` | src/vertipaq/column_data_dictionary.cpp:388-393 | the strings that pages hold are a beginning of those that are seen if and only if behind every page with unused zeros there are only empty strings |
| `UnusedZeros.PaddingShiftsIff` | src/vertipaq/vertipaq_decoder.cpp:45-81 | under the same condition, and only then, every string a page holds is found under its id |
| `DictionaryRoundTrip.WriterWrites` | src/vertipaq/vertipaq_decoder.cpp:38-68 | for every list of page contents there are pages and handles as `ReadsBack` takes them |
| `Column.InitializeColumnData` | src/vertipaq/vertipaq_decoder.cpp:264-279 | for any files of a string column: indices and dictionary, the base lowered by one at 32 bits for a nullable one |
| `Column.ProcessVertipaqData` | src/vertipaq/vertipaq_decoder.cpp:290-324 | cell i of a window is the non-empty text under index `start_row + i`, or null, for as many rows as the column has; undefined when the window starts past its end; the lookups that insert missing ids change no cell of this or a later call |
| `Column.ReadState.constructor` | src/pbix_reader.cpp:317-327 | from columns of any lengths: a valid state in which nothing has been put out, the first column giving the number of rows |
| `Column.ReadState.ReadColumns` | src/pbix_reader.cpp:340-347 | the loop over the columns puts the same window of each into the chunk and changes no cell; undefined exactly when a column ended before the window |
| `Column.ReadState.Read` | src/pbix_reader.cpp:331-353 | each call returns the next at most 2048 rows of every column; at the empty chunk, which comes only after the last row, the chunks of a column concatenate to its cells, cut to the rows of the first; undefined exactly when a column ended before the window |
| `ColumnRoundTrip.ColumnReadsBack` | src/vertipaq/vertipaq_decoder.cpp:264-279 | a column written as runs of data ids and pages of strings loads to those rows and strings when nothing collides and the ids stay below 2^31; and only then, as long as no packed id is the marker of its own place |
| `ColumnRoundTrip.CellsReadBack` | src/vertipaq/vertipaq_decoder.cpp:306-324 | a column so loaded reads, row by row, as the strings of its ids, and as null for ids without one and for the empty string |
| `ColumnRoundTrip.ColumnWriterWrites` | src/vertipaq/vertipaq_decoder.cpp:264-279 | any runs the width allows and any page contents can be written as a column that `ColumnReadsBack` takes |
| `ColumnRoundTrip.NullAdjustmentIff` | src/vertipaq/vertipaq_decoder.cpp:264-324 | of a written column: runs of equal ids read as the strings of those ids, packed values v as entry v, or as entry v - 1 and null for 0 of a nullable column, if and only if the column is not nullable, or its first id is not 0, or all packed values were to be null |
| `ColumnRoundTrip.LostStringExample` | src/vertipaq/vertipaq_decoder.cpp:264-324 | a nullable column with first id 0 that names one string by a packed value and by a run: the first reads as null, the second as the string |
| `ColumnRoundTrip.ReadToEnd` | src/pbix_reader.cpp:331-353 | asking for chunks until an empty one comes gives all cells of a column in order |
| `ColumnRoundTrip.ReadWholeColumn` | src/pbix_reader.cpp:313-353 | a written column, loaded and read to its end, gives the intended cells under the condition of `NullAdjustmentIff`, and only then |
| `Crc.TableIsDivision` | src/abf/crc32.c:8-74 | each of the 256 entries is its index divided for eight steps by the reflected polynomial 0x82f63b78 |
| `Crc.StepIsLinear` | src/abf/crc32.c:79-81 | a division step distributes over exclusive or |
| `Crc.ByteStep` | src/abf/crc32.c:80 | shifting a byte out and adding its entry is eight bit steps |
| `Crc.FeedWord` | src/abf/crc32.c:80 | feeding bits one by one is the same as having them in the register beforehand |
| `Crc.Crc32` | src/abf/crc32.c:77-84 | for every byte sequence and seed, the checksum by bitwise division of its bits, the register complemented before and after |
| `Crc.Chains` | src/abf/crc32.c:77-84 | the checksum of a concatenation is that of the second part seeded with that of the first |
| `Crc.ChecksumTells` | src/abf/crc32.c:77-84 | messages that differ only within their last four bytes never share a checksum |
| `CrcLaws.ChecksumIsRemainder` | src/abf/crc32.c:77-84 | with seed 0, of four bytes or more: 4294967295 less the plain remainder of the message whose first four bytes are each taken from 255 |
| `CrcLaws.Residue` | src/abf/crc32.c:77-84 | every message followed by its own checksum has the checksum 0x48674BC7 |
| `Header.Header.UpdateCrc` | src/abf/include/abf_parser.h:56-59 | the field becomes the CRC of the 28 bytes before it |
| `Header.HeaderCrcIff` | src/abf/include/abf_parser.h:56-59 | a header has the right CRC if and only if the checksum of its 32 bytes is 0x48674BC7 |
| `Header.PatchedResidue` | src/abf/abf_parser.cpp:184-204 | every patched header has that checksum |
| `Header.Header.ExtractFromBuffer` | src/abf/include/abf_parser.h:74-80 | a header whose bytes are those of the buffer, or 32 zeros when the buffer is too short |
| `Header.Header.InsertIntoBuffer` | src/abf/include/abf_parser.h:83-87 | the 32 bytes at the offset are replaced in place and no other; a short buffer is left alone |
| `Header.PatchHeaderOfCompressedBuffer` | src/abf/abf_parser.cpp:184-204 | index incremented, buffer patched in place, with and without a session signature |
| `Header.PatchedFields` | src/abf/abf_parser.cpp:184-204 | reading a patched block: new index, given or old signature, a CRC valid for its first 28 bytes, and the first 20 and all after 32 unchanged |
| `Header.PatchedAcceptedIff` | third_party/xpress9/Xpress9DecLz77.c:604-642 | a patched block passes the decoder's header checks as next of the session if and only if the parts the patch keeps do |
| `Header.OldCrcAcceptedIff` | third_party/xpress9/Xpress9DecLz77.c:604-642 | an accepted block renumbered without a new checksum is accepted under its new number if and only if that is the old one: recomputing the CRC is needed |
| `Blocks.ProcessBlock` | src/abf/abf_parser.cpp:262-300 | one iteration, skipped or read, leaves the cursor at data model offset + bytes read and the state of the step function |
| `Blocks.IterateAndDecompressBlocks` | src/abf/abf_parser.cpp:250-304 | the loop walks blocks until the size is reached, or throws when one does not decompress to its size |
| `Blocks.ChunkLoop` | src/abf/abf_parser.cpp:361-400 | one counted loop of the multi-threaded reader is the same walk with a bound on its length |
| `Blocks.IterateAndDecompressChunks` | src/abf/abf_parser.cpp:349-445 | head loop and tail loop together are one walk over all chunks |
| `Blocks.LoopsFuse` | src/abf/abf_parser.cpp:361-442 | stopping a walk after any number of chunks and going on is walking on, exceptions and early end included |
| `Blocks.WalkAccounts` | src/abf/abf_parser.cpp:260-300 | of any file and any decoder: every record is walked once, the position counts their bytes, and the skip offset and the kept bytes add up to their uncompressed sizes |
| `Window.CheckingIsFaithful` | third_party/xpress9/Xpress9DecLz77.c:604-642 | the assumption on the decoder is met by the strictest one, which throws unless every block so far passed its header checks in turn; so no renumbered run makes it throw |
| `Window.BodyIgnoresPatch` | src/abf/abf_parser.cpp:184-204 | patching leaves everything behind the header as it was, so a payload made of that is unchanged |
| `Window.FirstRecord` | src/abf/abf_parser.cpp:264-285 | a record written as two sizes and the bytes is read back, and the next one starts behind it |
| `Window.WalkSkipped` | src/abf/abf_parser.cpp:271-277 | skipped blocks are a run right after the initial one, move only the counters and add their sizes to the skip offset |
| `Window.WalkKept` | src/abf/abf_parser.cpp:279-300 | every block from the first kept one on is kept, numbered without a gap, accepted by the decoder, and its payload appended |
| `Window.RunKeepsTail` | src/abf/abf_parser.cpp:257-300 | for every block list and setting: which blocks are kept, the skip offset, numbers 1, 2, 3, ... with valid CRCs and one session signature whatever was skipped, and the payloads in order |
| `WindowedRead.ReadBufferBytes` | src/abf/abf_parser.cpp:73-82 | the range, an exception when it is out of bounds, or undefined behaviour when the wrapped sum passes the check |
| `WindowedRead.KeptFromModel` | src/abf/abf_parser.cpp:532-541 | every byte of the buffer is the byte of the fully decompressed model at its place |
| `WindowedRead.AddressingIff` | src/abf/abf_parser.cpp:73-137 | reading at `offset - skip_offset` returns the intended bytes, for every initial block of a given length, if and only if the size is below 2^31 and nothing was skipped or the range starts behind what was |
| `WindowedRead.WindowedReadIsFullRead` | src/abf/abf_parser.cpp:73-137 | such a range read from the window equals that range of the fully decompressed model if and only if its size fits the `int` it is passed as |
| `WindowedRead.BeforeSkipFails` | src/abf/abf_parser.cpp:73-105 | a range that starts before the skip offset is never returned |
| `WindowedRead.WrongPlace` | src/abf/abf_parser.cpp:73-137 | a range that starts inside the skipped blocks or before them is read wrong for some initial block of any length |
| `WindowedRead.WindowBound` | src/abf/abf_parser.cpp:253-277 | with blocks of at most 2 MiB, everything from `trailing` blocks before the end of the virtual directory on lies behind the skipped blocks, despite the rounded count; `WindowedRoundTrip.SingleWindowIs` says how much is skipped |
| `WindowedRead.TrailingRangesRead` | src/abf/abf_parser.cpp:103-137 | hence every range there reads as in the full model, if and only if its size is below 2^31 |
| `WindowedRead.ReadCounts` | src/abf/abf_parser.cpp:313-319 | chunk counts of head and tail from the five stored words, multiplied modulo 2^64, the cursor behind them |
| `WindowedRead.ReadStart` | src/abf/abf_parser.cpp:218-238 | signature and initial block record are read from their places, the cursor at the count of bytes read |
| `WindowedRead.FirstSignature` | src/abf/abf_parser.cpp:335-337 | the signature is bytes 20 to 24 of the first chunk, zero when it has no whole header |
| `WindowedRead.GetWindow` | src/abf/abf_parser.cpp:495-538 | both branches as a function of the file bytes: initial block, directory, loops, prefixing, completeness check |
| `WindowedRead.RunOnBlocks` | src/abf/abf_parser.cpp:495-538 | on a written file the buffer is the initial block and the kept ones, the skip offset the sizes between, and the run throws exactly when the model ends before its directory |
| `WindowedRead.RunAccounts` | src/abf/abf_parser.cpp:240-541 | of any file: a run that returns has an initial block of the announced size, has skipped and kept as many bytes as all records announce, and the virtual directory ends within them |
| `WindowedRoundTrip.BlockAccepted` | third_party/xpress9/Xpress9DecLz77.c:604-642 | a block written with magic, session, number and checksum passes the header checks under them |
| `WindowedRoundTrip.StartIsWritten` | src/abf/abf_parser.cpp:218-238 | signature, counts and initial record of a written data model are read back from anywhere in a file, and the other blocks follow |
| `WindowedRoundTrip.WrittenRuns` | src/abf/abf_parser.cpp:495-538 | any contents, with any sessions and numbers, can be written as a single- or multi-threaded data model that the run takes even with the strictest decoder; the window is what `RunOnBlocks` says |
| `WindowedRoundTrip.RangesReadBack` | src/abf/abf_parser.cpp:73-304 | contents written as a single-threaded data model, run through and read from the window with any setting come back in every range of less than 2^31 bytes in the last `trailing` blocks |
| `WindowedRoundTrip.SingleWindowIs` | src/abf/abf_parser.cpp:253-277 | of a single-threaded data model of 2 MiB blocks but the last, with the directory at its end, the window keeps exactly the last `trailing` contents, one more when the last block is not full, or all when there are fewer, and skips the rest |
| `WindowedRoundTrip.NegativeKeepsAll` | src/abf/abf_parser.cpp:271 | a negative `trailing` setting, compared as an unsigned number, keeps every block |
| `WindowedRoundTrip.ChunkRangesReadBack` | src/abf/abf_parser.cpp:306-541 | of a multi-threaded data model with as many chunks as announced, the window keeps exactly the last `trailing` contents, or all when there are fewer, and every range of less than 2^31 bytes in them comes back |
| `Zip.SearchReversed` | src/abf/zip_utils.cpp:14 | the reversed search finds the last occurrence of `PK` 5 6, or there is none |
| `Zip.FindEndOfCentralDirectory` | src/abf/zip_utils.cpp:3-24 | the end record at the last signature in the final 4096 bytes, or none there |
| `Zip.WalkHeaders` | src/abf/zip_utils.cpp:34-62 | the cursor loop gives offset and size of the first header named DataModel, counting position by the length fields |
| `Zip.FindDataModel` | src/abf/zip_utils.cpp:26-63 | the walk from the record found; an exception when there is none |
| `Zip.DirectoryRoundTrip` | src/abf/zip_utils.cpp:37-62 | on any written directory, with names, extras and comments of any length, the walk gives the first DataModel entry |
| `Zip.FirstDataModelIs` | src/abf/zip_utils.cpp:50-62 | it throws if and only if no entry has that name, and otherwise names the first |
| `Zip.EndFoundIff` | src/abf/zip_utils.cpp:7-24 | the proper end record is the one found if and only if it and the comment take at most 4096 bytes and no signature stands in the numbers of the record and the comment |
| `Zip.MisleadingComment` | src/abf/zip_utils.cpp:3-63 | a comment that is itself an empty end record makes the lookup throw in every archive |
| `Zip.ArchiveRoundTrip` | src/abf/zip_utils.cpp:26-63 | on such an archive the lookup is the first DataModel entry of the directory that was written |
| `Dispenser.GetRowIdInfo` | src/sqlite_db.cpp:265-288 | row ids are used exactly when the smallest is not negative, the largest is greater and their distance is below 20000000000000 |
| `Dispenser.NothingWraps` | src/pbix_scanner.cpp:183-198 | in every reachable state neither the doubling nor the end of the slice leaves 64 bits, and the internal error is out of reach |
| `Dispenser.NextKeeps` | src/pbix_scanner.cpp:183-198 | a call keeps the invariant: slices consecutive and non-empty, group size at most twice the rows handed out, and moves the position on |
| `Dispenser.ExactlyOnce` | src/pbix_scanner.cpp:192-195 | every id before the position is in exactly one slice, and no other id in any |
| `Dispenser.WhenExhausted` | src/pbix_scanner.cpp:184-199 | on refusal the position is the largest id or one past it, every smaller id is out, and the largest is if and only if it is past it |
| `Dispenser.SliceCount` | src/pbix_scanner.cpp:185-195 | the number of slices is bounded by the ids in default groups, and one more |
| `Dispenser.DefaultNext` | src/pbix_scanner.cpp:184-195 | while slices have rows the position moves in default groups |
| `Dispenser.LastRowMissedExample` | src/pbix_scanner.cpp:184-223 | a table numbered 1 to 122880: the last row is not scanned |
| `Scan.TakeSliceKeeps` | src/pbix_scanner.cpp:169-200 | a grant keeps the dispenser's invariant and uses ids up; a refusal changes nothing and means none are left |
| `Scan.GlobalState.constructor` | src/pbix_scanner.cpp:215-228 | the scan starts one id before the smallest, if there is one, in groups of 122880; the dispenser's invariant holds with no slice handed out, and there is something to hand out |
| `Scan.LocalState.ParallelStateNext` | src/pbix_scanner.cpp:169-200 | one call under the lock, parallel or not; the copy at src/pbix_reader.cpp:209-246 is the same |
| `Scan.LocalState.Init` | src/pbix_scanner.cpp:202-213 | the first slice, or done |
| `Scan.LocalState.FillChunk` | src/pbix_scanner.cpp:251-327 | the inner loop is as many thread turns as rows it takes, and stops at a full chunk or the end of the slice |
| `Scan.LocalState.Scan` | src/pbix_scanner.cpp:239-329 | one call is a finite number of turns, returns at most 2048 rows, and returns none only when no slice is left |
| `ScanSystem.TurnStreams` | src/pbix_scanner.cpp:239-329 | what a thread has returned, holds and has still to read stays the rows of its slices, in order |
| `ScanSystem.StepKeeps` | src/pbix_scanner.cpp:169-329 | a turn of any thread keeps the whole invariant of shared state, threads and slices |
| `ScanSystem.RunKeeps` | src/pbix_scanner.cpp:169-329 | every interleaving of any number of threads keeps it |
| `ScanSystem.FinishedRun` | src/pbix_scanner.cpp:169-329 | a finished parallel run has returned every row but perhaps that of the largest id exactly once, and that one if and only if the position went past it |
| `ScanSystem.RunStaysDefault` | src/pbix_scanner.cpp:169-329 | while no group of 122880 ids is without rows, every interleaving hands out groups of exactly that size and no thread is left with an empty slice |
| `ScanSystem.AllRowsReturned` | src/pbix_scanner.cpp:169-329 | of any table with a positive smallest id, every finished run of any threads returns all rows when the number of ids from the smallest to the largest is not a multiple of 122880; with smallest id 0, when the largest is not |
| `ScanSystem.AllRowsReturnedIff` | src/pbix_scanner.cpp:169-329 | of a table with a row at its largest id and none of whose groups of 122880 ids is empty, only then |
| `ScanSystem.FinishedWholeRun` | src/pbix_scanner.cpp:172-182 | a finished run without row ids has returned the whole table once |
| `ScanSystem.ThreadOrder` | src/pbix_scanner.cpp:239-271 | at any time the chunks of a thread concatenate to a beginning of the rows of its slices, at its end to all of them; none exceeds a vector, none but the last is empty |
| `ScanSystem.StepDecreases` | src/pbix_scanner.cpp:239-329 | every turn lowers (ids not handed out, rows left, distance from the end) lexicographically |
| `ScanSystem.RunToEnd` | src/pbix_scanner.cpp:239-329 | any scheduler reaches a state in which all threads are finished |

## Left out

- The XPress9 decompression itself: `Blocks.Decoder` is any function of the buffers handed over so far.
  `Window.Faithful` is what the results on whole runs assume of it: fed only blocks that pass its header
  checks, it returns the payload of the last, which does not depend on the fields the patch changes; one
  record holds one XPress9 block. `Window.CheckingIsFaithful` shows a decoder that meets it.
- Window.WalkKept: of the decoder's header checks only magic, index, signature, reserved word and CRC are
  modelled; the checks of sizes and table flags are part of the abstract decoder.
- Window.RunKeepsTail: asks for fewer than 2^32 blocks; a `DataModel` entry has a 32-bit size and a block
  at least 8 bytes, so a file cannot have more.
- HuffmanDecode.HuffmanRoundTrip, DictionaryRoundTrip.ReadsBack: bit positions are 32-bit, so a page has less
  than 2^32 bits.
- Column.ReadState.Read: starts after the lazy initialisation from the metadata statement; the decoder object
  it makes on every call is not modelled. What a cell holds that was not set is not modelled.
- WindowedRead.WindowedReadIsFullRead: the size of a directory entry is taken as non-negative; the log is read
  from two bytes in, the two being taken off its size after the conversion.
- WindowedRead.GetWindow: starts at the data model, past the local file header; the parsing of the backup
  log header is a parameter.
- Detection of the file type by its signature, and the rejection of uncompressed and unknown files.
- XML, UTF-16 and `trim_buffer`; matching of backup logs and virtual directory files.
- The generated parsers of dictionary and metadata files: their fields come in as datatypes.
- Numeric and date branches: `stoi`, `stod`, division by `Magnitude`, `std::to_string` of doubles.
- Conversion of a string to the output type other than as it is, and its null on failure.
- SQLite and DuckDB: a statement is a sequence of rows, a chunk a sequence of cells, a table has ascending
  row ids. DuckDB does not call a thread again after an empty chunk. The chunk size 2048 is DuckDB's.
- The value a file read leaves behind past the end of the file is taken to be the zeros of the fresh
  destination; the source does not initialise two of the size variables and the end record.
- Memory release, and containers of 2^63 elements or more.
- `vpax`, SQL helpers, binding, registration and printing: straight-line mapping.
