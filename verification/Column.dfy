/** A string column from its files to its cells: `initializeColumnData`, `processVertipaqData`
    and the chunk windows of `PbixRead`. */
module Column {
  import opened Machine
  import opened Idf
  import opened Hybrid
  import opened Huffman
  import opened Dictionary

  datatype Cell = Null | Str(text: Text)

  /** What the metadata and the decompressed model hold for one column. */
  datatype Source = Source(idf: seq<byte>, countBitPacked: uint64, minDataId: uint32, bitWidth: int,
                           nullable: bool, pages: seq<Page>, handles: seq<Handle>)

  /** The part of `VertipaqDetails` that is cached. */
  datatype Details = Details(decodedIndices: seq<uint64>, dictionaryCache: map<uint64, Text>)

  /** The id before the first: 32-bit arithmetic, then widened. */
  function BaseOf(minDataId: uint32, nullable: bool): uint64 {
    Wrap32(minDataId - if nullable then 1 else 0)
  }

  function IndicesOf(s: Source): Result<Outcome<seq<uint64>>> {
    match ParseAll(s.idf)
    case Threw => Threw
    case Returned(segments) =>
      Returned(Rows(segments, s.countBitPacked, BaseOf(s.minDataId, s.nullable), Wrap64(s.bitWidth)))
  }

  /** The details of a column, when nothing goes wrong on the way; `trees` are the Huffman trees its
      pages are read by. */
  function Load(s: Source, trees: seq<Rooted>): Result<Outcome<Details>>
    requires |trees| == |s.pages|
  {
    match IndicesOf(s)
    case Threw => Threw
    case Returned(Undefined) => Returned(Undefined)
    case Returned(Defined(indices)) =>
      match DictionaryFrom(s.pages, trees, s.handles, s.minDataId)
      case Undefined => Returned(Undefined)
      case Defined(table) => Returned(Defined(Details(indices, table)))
  }

  /** The dictionary branch of `initializeColumnData`. */
  method InitializeColumnData(s: Source) returns (r: Result<Outcome<Details>>)
    ensures exists trees: seq<Rooted> :: TreesOf(s.pages, trees) && |trees| == |s.pages| && r == Load(s, trees)
  {
    hide ParseAll, Rows, TreesOf, DictionaryFrom;
    ghost var trees: seq<Rooted> := SomeTrees(s.pages);
    var nullAdjustment := if s.nullable then 1 else 0;
    var decodedIndices := ReadRleBitPackedHybrid(s.idf, s.countBitPacked, Wrap32(s.minDataId - nullAdjustment),
                                                 Wrap64(s.bitWidth));
    if decodedIndices.Threw? {
      return Threw;
    }
    if decodedIndices.value.Undefined? {
      return Returned(Undefined);
    }
    var dictionaryCache := ReadDictionary(s.pages, s.handles, s.minDataId);
    trees :| TreesOf(s.pages, trees) && |trees| == |s.pages|
             && dictionaryCache == DictionaryFrom(s.pages, trees, s.handles, s.minDataId);
    if dictionaryCache.Undefined? {
      return Returned(Undefined);
    }
    r := Returned(Defined(Details(decodedIndices.value.value, dictionaryCache.value)));
  }

  // ----- cells

  /** What a lookup yields: nothing for a missing id and for an empty text. */
  function CellOf(cache: map<uint64, Text>, index: uint64): Cell {
    if index in cache && cache[index] != [] then Str(cache[index]) else Null
  }

  function CellAt(d: Details, row: nat): Cell
    requires row < |d.decodedIndices|
  {
    CellOf(d.dictionaryCache, d.decodedIndices[row])
  }

  /** The whole column. */
  function Cells(d: Details): (cells: seq<Cell>)
    ensures |cells| == |d.decodedIndices|
  {
    seq(|d.decodedIndices|, row requires 0 <= row < |d.decodedIndices| => CellAt(d, row))
  }

  /** The rows `from` to `to` of a column, as far as it has them. */
  function CellsBetween(d: Details, from: nat, to: nat): seq<Cell>
    requires from <= to
  {
    Cells(d)[Min(from, |d.decodedIndices|)..Min(to, |d.decodedIndices|)]
  }

  /** The string branch of `processVertipaqData`. Past the end of the column the difference that
      limits the count wraps, and the first row is read outside the vector. The lookup inserts an
      empty text under a missing id, which changes the cache but no cell, of this call or a later one. */
  method ProcessVertipaqData(d: Details, startRow: nat, rowCount: nat) returns (r: Outcome<seq<Cell>>, d': Details)
    ensures Cells(d') == Cells(d) && d'.decodedIndices == d.decodedIndices
    ensures r.Undefined? <==> startRow > |d.decodedIndices| && rowCount > 0
    ensures r.Defined? ==>
              |r.value| == (if startRow <= |d.decodedIndices| then Min(rowCount, |d.decodedIndices| - startRow) else 0)
              && forall i :: 0 <= i < |r.value| ==>
                   var id := d.decodedIndices[startRow + i];
                   r.value[i] == if id in d.dictionaryCache && d.dictionaryCache[id] != []
                                 then Str(d.dictionaryCache[id]) else Null
    ensures r.Defined? ==> r.value == CellsBetween(d, startRow, startRow + rowCount)
  {
    hide Cells, CellsBetween, CellOf;
    var count := if startRow <= |d.decodedIndices| then Min(rowCount, |d.decodedIndices| - startRow) else rowCount;
    if startRow > |d.decodedIndices| && count > 0 {
      return Undefined, d;
    }
    var cache := d.dictionaryCache;
    var cells: seq<Cell> := [];
    NoCells(d, startRow);
    for i := 0 to count
      invariant forall index: uint64 :: CellOf(cache, index) == CellOf(d.dictionaryCache, index)
      invariant cells == CellsBetween(d, startRow, startRow + i) && |cells| == i
      invariant forall k :: 0 <= k < i ==> cells[k] == CellOf(d.dictionaryCache, d.decodedIndices[startRow + k])
    {
      var index := d.decodedIndices[startRow + i];
      NextCell(d, startRow, i);
      if index !in cache {
        InsertedKeeps(cache, index);
        cache := cache[index := []];
      }
      var val := cache[index];
      LookedUp(cache, index);
      if val == [] {
        cells := cells + [Null];
      } else {
        cells := cells + [Str(val)];
      }
    }
    d' := Details(d.decodedIndices, cache);
    SameCache(d, d');
    r := Defined(cells);
    CellsAre(d, startRow, cells);
    AllBetween(d, startRow, rowCount, count);
  }

  lemma NoCells(d: Details, from: nat)
    ensures CellsBetween(d, from, from) == []
  {
  }

  lemma NextCell(d: Details, from: nat, i: nat)
    requires from + i < |d.decodedIndices|
    ensures CellsBetween(d, from, from + i + 1)
         == CellsBetween(d, from, from + i) + [CellOf(d.dictionaryCache, d.decodedIndices[from + i])]
  {
    hide CellOf;
    assert Cells(d)[from + i] == CellOf(d.dictionaryCache, d.decodedIndices[from + i]);
  }

  lemma InsertedKeeps(cache: map<uint64, Text>, index: uint64)
    requires index !in cache
    ensures forall i: uint64 :: CellOf(cache[index := []], i) == CellOf(cache, i)
  {
  }

  lemma LookedUp(cache: map<uint64, Text>, index: uint64)
    requires index in cache
    ensures CellOf(cache, index) == if cache[index] == [] then Null else Str(cache[index])
  {
  }

  lemma SameCache(one: Details, two: Details)
    requires one.decodedIndices == two.decodedIndices
    requires forall index: uint64 :: CellOf(two.dictionaryCache, index) == CellOf(one.dictionaryCache, index)
    ensures Cells(two) == Cells(one)
  {
    hide CellOf;
  }

  lemma CellsAre(d: Details, from: nat, cells: seq<Cell>)
    requires cells == [] || from + |cells| <= |d.decodedIndices|
    requires forall i :: 0 <= i < |cells| ==> cells[i] == CellOf(d.dictionaryCache, d.decodedIndices[from + i])
    ensures forall i :: 0 <= i < |cells| ==>
              var id := d.decodedIndices[from + i];
              cells[i] == if id in d.dictionaryCache && d.dictionaryCache[id] != []
                          then Str(d.dictionaryCache[id]) else Null
  {
  }

  lemma AllBetween(d: Details, from: nat, rowCount: nat, count: nat)
    requires count == if from <= |d.decodedIndices| then Min(rowCount, |d.decodedIndices| - from) else 0
    ensures CellsBetween(d, from, from + rowCount) == CellsBetween(d, from, from + count)
  {
    hide Cells;
  }

  // ----- chunks

  /** A chunk: a column of it is shorter than the cardinality when the column has no more rows. */
  datatype Chunk = Chunk(columns: seq<seq<Cell>>, cardinality: nat)

  /** Some column ended before the window starts. */
  predicate EndedBefore(details: seq<Details>, row: nat) {
    exists c :: 0 <= c < |details| && |details[c].decodedIndices| < row
  }

  /** The part of the local state that `PbixRead` keeps across calls, after the columns have been
      initialised; `emitted` collects what the chunks so far put into each column. */
  class ReadState {
    var columnDetails: seq<Details>
    var totalRows: nat
    var currentRow: nat
    var done: bool
    ghost var emitted: seq<seq<Cell>>

    constructor (details: seq<Details>)
      ensures Valid() && columnDetails == details && currentRow == 0 && !done
      ensures totalRows == if details == [] then 0 else |details[0].decodedIndices|
      ensures forall c :: 0 <= c < |emitted| ==> emitted[c] == []
    {
      columnDetails, currentRow, done := details, 0, false;
      totalRows := if details == [] then 0 else |details[0].decodedIndices|;
      emitted := seq(|details|, _ => []);
    }

    ghost predicate Valid()
      reads this
    {
      currentRow <= totalRows && |emitted| == |columnDetails|
      && (forall c :: 0 <= c < |emitted| ==> emitted[c] == CellsBetween(columnDetails[c], 0, currentRow))
      && (done ==> currentRow == totalRows)
    }

    /** The loop of `PbixRead` over the columns: the same window of each. */
    method ReadColumns(rowCount: nat) returns (r: Outcome<seq<seq<Cell>>>)
      requires rowCount > 0
      modifies this`columnDetails
      ensures |columnDetails| == |old(columnDetails)|
      ensures forall c :: 0 <= c < |columnDetails| ==> SameCells(columnDetails[c], old(columnDetails)[c])
      ensures r.Undefined? <==> EndedBefore(old(columnDetails), currentRow)
      ensures r.Defined? ==>
                |r.value| == |columnDetails|
                && forall c :: 0 <= c < |columnDetails| ==>
                     r.value[c] == CellsBetween(old(columnDetails)[c], currentRow, currentRow + rowCount)
    {
      hide Cells, CellsBetween;
      var columns: seq<seq<Cell>> := [];
      ghost var before := columnDetails;
      for c := 0 to |columnDetails|
        invariant |columnDetails| == |before| && |columns| == c
        invariant forall k :: 0 <= k < |before| ==> SameCells(columnDetails[k], before[k])
        invariant forall k :: 0 <= k < c ==> |before[k].decodedIndices| >= currentRow
        invariant forall k :: 0 <= k < c ==>
                    columns[k] == CellsBetween(before[k], currentRow, currentRow + rowCount)
      {
        var cells, details := ProcessVertipaqData(columnDetails[c], currentRow, rowCount);
        SameBetween(columnDetails[c], before[c], currentRow, currentRow + rowCount);
        columnDetails := columnDetails[c := details];
        if cells.Undefined? {
          assert |before[c].decodedIndices| < currentRow;
          return Undefined;
        }
        columns := columns + [cells.value];
      }
      r := Defined(columns);
    }

    /** The tail of `PbixRead`: one window of at most a vector of rows, the same rows of every
        column, straight after the window before; an empty chunk only when every row is out. It is
        undefined exactly when a column ended before the window. */
    method Read() returns (r: Outcome<Chunk>)
      requires Valid()
      modifies this
      ensures r.Undefined? <==> old(currentRow) < totalRows && old(EndedBefore(columnDetails, currentRow))
      ensures r.Defined? ==> Valid()
      ensures |columnDetails| == old(|columnDetails|) && totalRows == old(totalRows)
      ensures forall c :: 0 <= c < |columnDetails| ==> Cells(columnDetails[c]) == old(Cells(columnDetails[c]))
      ensures r.Defined? ==>
                r.value.cardinality == Min(2048, totalRows - old(currentRow))
                && currentRow == old(currentRow) + r.value.cardinality
                && (done <==> r.value.cardinality == 0)
      ensures r.Defined? && r.value.cardinality > 0 ==>
                |r.value.columns| == |columnDetails| == |old(emitted)|
                && forall c :: 0 <= c < |columnDetails| ==>
                     var rows := |columnDetails[c].decodedIndices|;
                     r.value.columns[c] == Cells(columnDetails[c])[Min(old(currentRow), rows)..Min(currentRow, rows)]
                     && emitted[c] == old(emitted[c]) + r.value.columns[c]
      ensures r.Defined? && r.value.cardinality == 0 ==>
                currentRow == totalRows && |emitted| == |columnDetails|
                && forall c :: 0 <= c < |columnDetails| ==>
                     emitted[c] == old(emitted[c])
                     && emitted[c] == Cells(columnDetails[c])[..Min(totalRows, |columnDetails[c].decodedIndices|)]
    {
      hide Cells, CellsBetween;
      BetweenAre(columnDetails, 0, currentRow);
      if done {
        return Defined(Chunk([], 0));
      }
      if currentRow >= totalRows {
        done := true;
        return Defined(Chunk([], 0));
      }
      var rowsToProcess := Min(STANDARD_VECTOR_SIZE, totalRows - currentRow);
      ghost var before := columnDetails;
      var columns := ReadColumns(rowsToProcess);
      if columns.Undefined? {
        return Undefined;
      }
      AllAdded(before, columnDetails, emitted, columns.value, currentRow, currentRow + rowsToProcess);
      BetweenAre(columnDetails, currentRow, currentRow + rowsToProcess);
      ghost var was := emitted;
      emitted := seq(|was|, c requires 0 <= c < |was| => was[c] + columns.value[c]);
      currentRow := currentRow + rowsToProcess;
      r := Defined(Chunk(columns.value, rowsToProcess));
    }
  }

  predicate SameCells(one: Details, two: Details) {
    Cells(one) == Cells(two) && one.decodedIndices == two.decodedIndices
  }

  lemma BetweenAre(details: seq<Details>, from: nat, to: nat)
    requires from <= to
    ensures forall c :: 0 <= c < |details| ==>
              CellsBetween(details[c], from, to)
              == Cells(details[c])[Min(from, |details[c].decodedIndices|)..Min(to, |details[c].decodedIndices|)]
  {
  }

  lemma SameBetween(one: Details, two: Details, from: nat, to: nat)
    requires SameCells(one, two) && from <= to
    ensures CellsBetween(one, from, to) == CellsBetween(two, from, to)
  {
  }

  /** What was put out before and the new window make up the rows so far. */
  lemma AllAdded(before: seq<Details>, after: seq<Details>, emitted: seq<seq<Cell>>, columns: seq<seq<Cell>>,
                 from: nat, to: nat)
    requires |before| == |after| == |emitted| == |columns| && from <= to
    requires forall c :: 0 <= c < |before| ==> SameCells(after[c], before[c])
    requires forall c :: 0 <= c < |before| ==> emitted[c] == CellsBetween(before[c], 0, from)
    requires forall c :: 0 <= c < |before| ==> columns[c] == CellsBetween(before[c], from, to)
    ensures forall c :: 0 <= c < |before| ==> columns[c] == CellsBetween(after[c], from, to)
    ensures forall c :: 0 <= c < |before| ==> emitted[c] + columns[c] == CellsBetween(after[c], 0, to)
  {
    hide Cells;
  }
}
