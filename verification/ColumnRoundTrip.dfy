/** From what was written to what is read: the cells of a string column. */
module ColumnRoundTrip {
  import opened Machine
  import opened Idf
  import opened BitPacking
  import opened Hybrid
  import opened Huffman
  import opened Dictionary
  import opened DictionaryRoundTrip
  import opened Column

  /** The cell a data id stands for, given the strings from the first id on. */
  function Meaning(strings: seq<Text>, minDataId: nat, id: uint64): Cell {
    if minDataId <= id < minDataId + |strings| && strings[id - minDataId] != []
    then Str(strings[id - minDataId]) else Null
  }

  /** A column as written: its rows in runs of data ids, its strings in pages. */
  predicate ColumnWritten(s: Source, segment: Segment, more: seq<Segment>, runs: seq<Run>, contents: seq<Content>) {
    s.idf == Serialise([segment] + more)
    && (forall i :: 0 <= i < |more| ==> Sized(more[i]) && Countable(more[i]))
    && 0 < s.bitWidth
    && Holds(segment, runs, BaseOf(s.minDataId, s.nullable), s.bitWidth)
    && s.countBitPacked == |PackedValues(runs)|
    && Written(contents, s.pages, s.handles)
  }

  // ----- every column can be written

  function SegmentOf(runs: seq<Run>, base: uint64, w: nat): Segment
    requires RunsWritable(runs, base, w)
    requires |PrimaryOf(runs, 0)| < TWO_31 && |SubOf(runs, base, w)| < TWO_31
  {
    Segment(|PrimaryOf(runs, 0)|, PrimaryOf(runs, 0), |SubOf(runs, base, w)|, SubOf(runs, base, w))
  }

  /** Any list of runs the width allows and any list of contents can be written as a column. */
  lemma ColumnWriterWrites(runs: seq<Run>, contents: seq<Content>, minDataId: uint32, nullable: bool, w: nat)
    returns (s: Source, segment: Segment)
    requires RunsWritable(runs, BaseOf(minDataId, nullable), w)
    requires |PrimaryOf(runs, 0)| < TWO_31 && |SubOf(runs, BaseOf(minDataId, nullable), w)| < TWO_31
    requires |contents| < TWO_31 && forall k :: 0 <= k < |contents| ==> Writable(contents[k])
    ensures ColumnWritten(s, segment, [], runs, contents) && s.minDataId == minDataId && s.nullable == nullable
  {
    hide PrimaryOf, SubOf, Serialise, PackedValues, RunsWritable, Writable;
    hide PagesOf, HandlesOf, Written;
    WriterWrites(contents);
    SegmentHolds(runs, BaseOf(minDataId, nullable), w);
    segment := SegmentOf(runs, BaseOf(minDataId, nullable), w);
    s := Source(Serialise([segment] + []), |PackedValues(runs)|, minDataId, w, nullable,
                PagesOf(contents), HandlesOf(contents));
  }

  lemma SegmentHolds(runs: seq<Run>, base: uint64, w: nat)
    requires RunsWritable(runs, base, w)
    requires |PrimaryOf(runs, 0)| < TWO_31 && |SubOf(runs, base, w)| < TWO_31
    ensures Holds(SegmentOf(runs, base, w), runs, base, w) && 0 < w && |PackedValues(runs)| < TWO_64
  {
  }

  // ----- reading it

  /** The column loads to the given rows and to the strings under their ids. */
  ghost predicate LoadsAs(s: Source, trees: seq<Rooted>, rows: seq<uint64>, strings: seq<Text>)
    requires |trees| == |s.pages|
  {
    var loaded := Load(s, trees);
    loaded.Returned? && loaded.value.Defined?
    && loaded.value.value.decodedIndices == rows
    && Numbers(loaded.value.value.dictionaryCache, s.minDataId, strings)
  }

  /** The whole column, however its trees were built: it loads to its rows and strings when no run
      of equal ids is taken for a marker and the ids fit their `int`, and exactly then, as long as no
      packed id is the marker of its own place. */
  lemma ColumnReadsBack(s: Source, segment: Segment, more: seq<Segment>, runs: seq<Run>, contents: seq<Content>,
                        trees: seq<Rooted>)
    requires ColumnWritten(s, segment, more, runs, contents) && |trees| == |s.pages| && TreesOf(s.pages, trees)
    ensures NoCollision(runs, 0) && IdsFit(s.minDataId, AllStrings(contents)) ==>
              LoadsAs(s, trees, RunRows(runs), AllStrings(contents))
    ensures Unmistakable(PackedValues(runs), BaseOf(s.minDataId, s.nullable)) ==>
              (LoadsAs(s, trees, RunRows(runs), AllStrings(contents))
               <==> NoCollision(runs, 0) && IdsFit(s.minDataId, AllStrings(contents)))
  {
    hide Serialise, ParseAll, Rows, NoCollision, RunRows, Written, AllStrings, Fill, PagesTexts, TreesOf;
    hide Numbers, IdsFit, PackedValues, Unmistakable;
    IndicesReadBack(s, segment, more, runs, contents);
    ReadsBack(contents, s.pages, trees, s.handles, s.minDataId);
  }

  lemma IndicesReadBack(s: Source, segment: Segment, more: seq<Segment>, runs: seq<Run>, contents: seq<Content>)
    requires ColumnWritten(s, segment, more, runs, contents)
    ensures NoCollision(runs, 0) ==> IndicesOf(s) == Returned(Defined(RunRows(runs)))
    ensures Unmistakable(PackedValues(runs), BaseOf(s.minDataId, s.nullable)) ==>
              (IndicesOf(s) == Returned(Defined(RunRows(runs))) <==> NoCollision(runs, 0))
  {
    hide Serialise, ParseAll, Rows, NoCollision, RunRows, Written, AllStrings, Unmistakable;
    hide PrimaryOf, PackedValues, SubOf;
    HybridRoundTrip(runs, segment, more, BaseOf(s.minDataId, s.nullable), s.bitWidth);
    assert s.bitWidth < 64;
  }

  /** Row by row: the string of the data id; ids without a string, and ids of the empty string, read
      as null. */
  lemma CellsReadBack(s: Source, trees: seq<Rooted>, rows: seq<uint64>, strings: seq<Text>)
    requires |trees| == |s.pages| && LoadsAs(s, trees, rows, strings)
    ensures |Cells(Load(s, trees).value.value)| == |rows|
    ensures forall row :: 0 <= row < |rows| ==>
              Cells(Load(s, trees).value.value)[row] == Meaning(strings, s.minDataId, rows[row])
  {
    hide Load;
  }

  // ----- the null adjustment

  /** The id of a packed distance `v`. */
  function PackedId(minDataId: uint32, nullable: bool, v: nat): uint64 {
    Wrap64(BaseOf(minDataId, nullable) + v)
  }

  /** The cell a packed distance should stand for: the v-th string, or of a nullable column null
      for zero and the string before the v-th otherwise. */
  function Intended(strings: seq<Text>, nullable: bool, v: nat): Cell {
    var k := v - if nullable then 1 else 0;
    if 0 <= k < |strings| && strings[k] != [] then Str(strings[k]) else Null
  }

  /** The adjustment wraps. */
  predicate LosesStrings(minDataId: uint32, nullable: bool) {
    nullable && minDataId == 0
  }

  /** A packed distance stands for what it should, or for nothing when the adjustment wraps. */
  lemma MeaningOfPacked(minDataId: uint32, nullable: bool, strings: seq<Text>, v: nat)
    requires IdsFit(minDataId, strings) && v < TWO_64 - TWO_32
    ensures Meaning(strings, minDataId, PackedId(minDataId, nullable, v))
         == if LosesStrings(minDataId, nullable) then Null else Intended(strings, nullable, v)
  {
    if LosesStrings(minDataId, nullable) {
      assert PackedId(minDataId, nullable, v) == TWO_32 - 1 + v;
    } else {
      assert PackedId(minDataId, nullable, v) == minDataId - (if nullable then 1 else 0) + v;
    }
  }

  /** The distance a packed value is stored as. */
  function DistanceOf(minDataId: uint32, nullable: bool, value: uint64): nat {
    Wrap64(value - BaseOf(minDataId, nullable))
  }

  /** What the runs should read as: a run of equal ids holds the ids themselves, a packed value is the
      distance from the adjusted base. */
  function IntendedCells(strings: seq<Text>, minDataId: uint32, nullable: bool, runs: seq<Run>): seq<Cell> {
    if runs == [] then []
    else (match runs[0]
          case Rle(v, n) => seq(n, _ => Meaning(strings, minDataId, v))
          case Packed(vs) => PackedCells(strings, minDataId, nullable, vs))
         + IntendedCells(strings, minDataId, nullable, runs[1..])
  }

  function PackedCells(strings: seq<Text>, minDataId: uint32, nullable: bool, vs: seq<uint64>): (cells: seq<Cell>)
    ensures |cells| == |vs|
  {
    seq(|vs|, i requires 0 <= i < |vs| => Intended(strings, nullable, DistanceOf(minDataId, nullable, vs[i])))
  }

  function MeaningCells(strings: seq<Text>, minDataId: nat, rows: seq<uint64>): (cells: seq<Cell>)
    ensures |cells| == |rows|
  {
    seq(|rows|, i requires 0 <= i < |rows| => Meaning(strings, minDataId, rows[i]))
  }

  /** Every one of the packed values was to be null. */
  predicate AllNull(strings: seq<Text>, minDataId: uint32, nullable: bool, vs: seq<uint64>) {
    forall i :: 0 <= i < |vs| ==> Intended(strings, nullable, DistanceOf(minDataId, nullable, vs[i])) == Null
  }

  predicate SmallDistances(minDataId: uint32, nullable: bool, vs: seq<uint64>) {
    forall i :: 0 <= i < |vs| ==> DistanceOf(minDataId, nullable, vs[i]) < TWO_64 - TWO_32
  }

  lemma PackedMeanings(strings: seq<Text>, minDataId: uint32, nullable: bool, vs: seq<uint64>)
    requires IdsFit(minDataId, strings) && SmallDistances(minDataId, nullable, vs)
    ensures MeaningCells(strings, minDataId, vs) == PackedCells(strings, minDataId, nullable, vs)
        <==> !LosesStrings(minDataId, nullable) || AllNull(strings, minDataId, nullable, vs)
  {
    hide Meaning, Intended, IdsFit;
    var actual, intended := MeaningCells(strings, minDataId, vs), PackedCells(strings, minDataId, nullable, vs);
    forall i | 0 <= i < |vs|
      ensures actual[i] == if LosesStrings(minDataId, nullable) then Null else intended[i]
    {
      var v := DistanceOf(minDataId, nullable, vs[i]);
      MeaningOfPacked(minDataId, nullable, strings, v);
      assert PackedId(minDataId, nullable, v) == vs[i];
    }
    if LosesStrings(minDataId, nullable) {
      NullCells(actual, intended);
      NullsPacked(strings, minDataId, nullable, vs);
    } else {
      assert actual == intended;
    }
  }

  lemma NullsPacked(strings: seq<Text>, minDataId: uint32, nullable: bool, vs: seq<uint64>)
    ensures AllNull(strings, minDataId, nullable, vs)
        <==> forall i :: 0 <= i < |vs| ==> PackedCells(strings, minDataId, nullable, vs)[i] == Null
  {
    hide Intended, DistanceOf;
    var cells := PackedCells(strings, minDataId, nullable, vs);
    forall i | 0 <= i < |vs|
      ensures cells[i] == Intended(strings, nullable, DistanceOf(minDataId, nullable, vs[i]))
    {
    }
  }

  lemma NullCells(actual: seq<Cell>, intended: seq<Cell>)
    requires |actual| == |intended| && forall i :: 0 <= i < |actual| ==> actual[i] == Null
    ensures actual == intended <==> forall i :: 0 <= i < |intended| ==> intended[i] == Null
  {
  }

  lemma MeaningsJoin(strings: seq<Text>, minDataId: nat, a: seq<uint64>, b: seq<uint64>)
    ensures MeaningCells(strings, minDataId, a + b)
         == MeaningCells(strings, minDataId, a) + MeaningCells(strings, minDataId, b)
  {
    hide Meaning;
  }

  lemma SameParts<T>(a: seq<T>, b: seq<T>, c: seq<T>, d: seq<T>)
    requires |a| == |c|
    ensures a + b == c + d <==> a == c && b == d
  {
    if a + b == c + d {
      assert a == (a + b)[..|a|] && c == (c + d)[..|a|];
      assert b == (a + b)[|a|..] && d == (c + d)[|a|..];
    }
  }

  lemma AllNullJoin(strings: seq<Text>, minDataId: uint32, nullable: bool, a: seq<uint64>, b: seq<uint64>)
    ensures AllNull(strings, minDataId, nullable, a + b)
        <==> AllNull(strings, minDataId, nullable, a) && AllNull(strings, minDataId, nullable, b)
    ensures SmallDistances(minDataId, nullable, a + b)
        <==> SmallDistances(minDataId, nullable, a) && SmallDistances(minDataId, nullable, b)
  {
    hide Intended, DistanceOf;
    var ab := a + b;
    assert forall i :: 0 <= i < |a| ==> ab[i] == a[i];
    assert forall i :: 0 <= i < |b| ==> ab[|a| + i] == b[i];
    assert forall i :: |a| <= i < |ab| ==> ab[i] == b[i - |a|];
  }

  /** The rows of the runs mean what was intended exactly when the adjustment does not wrap, or every
      packed value was to be null; runs of equal ids always do. */
  lemma {:induction false} RowsMeanIff(strings: seq<Text>, minDataId: uint32, nullable: bool, runs: seq<Run>)
    requires IdsFit(minDataId, strings) && SmallDistances(minDataId, nullable, PackedValues(runs))
    ensures MeaningCells(strings, minDataId, RunRows(runs)) == IntendedCells(strings, minDataId, nullable, runs)
        <==> !LosesStrings(minDataId, nullable) || AllNull(strings, minDataId, nullable, PackedValues(runs))
  {
    hide IdsFit, Meaning, AllNull, SmallDistances, MeaningCells, PackedCells, LosesStrings;
    if runs == [] {
      NothingMeant(strings, minDataId, nullable);
    } else {
      var rest := runs[1..];
      var rows, cells := RunRows(rest), IntendedCells(strings, minDataId, nullable, rest);
      match runs[0]
      case Rle(v, n) =>
        assert PackedValues(runs) == PackedValues(rest);
        RowsMeanIff(strings, minDataId, nullable, rest);
        RleMeans(strings, minDataId, v, n);
        MeaningsJoin(strings, minDataId, Repeat(v, n), rows);
        SameParts(MeaningCells(strings, minDataId, Repeat(v, n)), MeaningCells(strings, minDataId, rows),
                  seq(n, _ => Meaning(strings, minDataId, v)), cells);
      case Packed(vs) =>
        AllNullJoin(strings, minDataId, nullable, vs, PackedValues(rest));
        RowsMeanIff(strings, minDataId, nullable, rest);
        PackedMeanings(strings, minDataId, nullable, vs);
        MeaningsJoin(strings, minDataId, vs, rows);
        SameParts(MeaningCells(strings, minDataId, vs), MeaningCells(strings, minDataId, rows),
                  PackedCells(strings, minDataId, nullable, vs), cells);
    }
  }

  lemma NothingMeant(strings: seq<Text>, minDataId: uint32, nullable: bool)
    ensures MeaningCells(strings, minDataId, []) == [] && AllNull(strings, minDataId, nullable, [])
  {
  }

  lemma RleMeans(strings: seq<Text>, minDataId: uint32, v: uint32, n: nat)
    ensures MeaningCells(strings, minDataId, Repeat(v, n)) == seq(n, _ => Meaning(strings, minDataId, v))
  {
    hide Meaning;
  }

  /** The width of a written column keeps its distances small. */
  lemma WrittenDistances(segment: Segment, runs: seq<Run>, minDataId: uint32, nullable: bool, w: nat)
    requires Holds(segment, runs, BaseOf(minDataId, nullable), w)
    ensures SmallDistances(minDataId, nullable, PackedValues(runs))
  {
    hide PackedValues, BaseOf, PrimaryOf, SubOf;
    var values, base := PackedValues(runs), BaseOf(minDataId, nullable);
    WidthBound(w);
    forall i | 0 <= i < |values|
      ensures DistanceOf(minDataId, nullable, values[i]) < TWO_64 - TWO_32
    {
      assert Distances(values, base)[i] == DistanceOf(minDataId, nullable, values[i]);
    }
  }

  lemma WidthBound(w: nat)
    requires w < 64
    ensures Pow2(w) < TWO_64 - TWO_32
  {
    Pow2Values();
    Pow2Order(w, 63);
    assert Pow2(64) == 2 * Pow2(63);
  }

  /** The null adjustment of a whole column: its cells are the intended ones if and only if the column
      is not nullable, or its first id is not 0, or all its packed values were to be null. With first
      id 0 every packed value of a nullable column reads as null, while runs of equal ids, which hold
      the ids themselves, keep their strings. */
  lemma NullAdjustmentIff(s: Source, segment: Segment, more: seq<Segment>, runs: seq<Run>, contents: seq<Content>,
                          trees: seq<Rooted>)
    requires ColumnWritten(s, segment, more, runs, contents) && |trees| == |s.pages| && TreesOf(s.pages, trees)
    requires NoCollision(runs, 0) && IdsFit(s.minDataId, AllStrings(contents))
    ensures LoadsAs(s, trees, RunRows(runs), AllStrings(contents))
    ensures Cells(Load(s, trees).value.value) == IntendedCells(AllStrings(contents), s.minDataId, s.nullable, runs)
        <==> !LosesStrings(s.minDataId, s.nullable)
             || AllNull(AllStrings(contents), s.minDataId, s.nullable, PackedValues(runs))
  {
    hide TreesOf, Load, LoadsAs, Intended, IdsFit, Cells, NoCollision, RunRows, AllStrings, IntendedCells, Holds;
    hide Meaning, Written, Serialise, PackedValues;
    ColumnReadsBack(s, segment, more, runs, contents, trees);
    LoadedIs(s, trees, RunRows(runs), AllStrings(contents));
    CellsReadBack(s, trees, RunRows(runs), AllStrings(contents));
    assert Cells(Load(s, trees).value.value) == MeaningCells(AllStrings(contents), s.minDataId, RunRows(runs));
    WrittenDistances(segment, runs, s.minDataId, s.nullable, s.bitWidth);
    RowsMeanIff(AllStrings(contents), s.minDataId, s.nullable, runs);
  }

  lemma LoadedIs(s: Source, trees: seq<Rooted>, rows: seq<uint64>, strings: seq<Text>)
    requires |trees| == |s.pages| && LoadsAs(s, trees, rows, strings)
    ensures Load(s, trees).Returned? && Load(s, trees).value.Defined?
  {
  }

  // ----- reading it to its end

  /** All chunks of a column, asked for until an empty one comes: its cells, in order. */
  method ReadToEnd(details: Details) returns (cells: seq<Cell>)
    ensures cells == Cells(details)
  {
    hide Cells;
    var state := new ReadState([details]);
    cells := [];
    while !state.done
      invariant state.Valid() && |state.columnDetails| == 1 && Cells(state.columnDetails[0]) == Cells(details)
      invariant state.totalRows == |details.decodedIndices|
      invariant cells == state.emitted[0]
      invariant state.done ==> cells == Cells(details)[..state.totalRows]
      decreases state.totalRows - state.currentRow, if state.done then 0 else 1
    {
      assert |Cells(state.columnDetails[0])| == |Cells(details)|;
      var chunk := state.Read();
      assert |Cells(state.columnDetails[0])| == |Cells(details)|;
      if chunk.value.cardinality > 0 {
        cells := cells + chunk.value.columns[0];
      }
    }
    assert Cells(details)[..|details.decodedIndices|] == Cells(details);
  }

  /** A written column, loaded and read to its end: the intended cells, exactly when the null
      adjustment takes none away. */
  method ReadWholeColumn(s: Source, ghost segment: Segment, ghost more: seq<Segment>, ghost runs: seq<Run>,
                         ghost contents: seq<Content>) returns (r: Result<Outcome<seq<Cell>>>)
    requires ColumnWritten(s, segment, more, runs, contents)
    requires NoCollision(runs, 0) && IdsFit(s.minDataId, AllStrings(contents))
    ensures r.Returned? && r.value.Defined?
    ensures r.value.value == IntendedCells(AllStrings(contents), s.minDataId, s.nullable, runs)
        <==> !(s.nullable && s.minDataId == 0)
             || AllNull(AllStrings(contents), s.minDataId, s.nullable, PackedValues(runs))
  {
    hide ColumnWritten, TreesOf, Load, LoadsAs, IdsFit, Cells, NoCollision, RunRows, AllStrings, IntendedCells, AllNull;
    var loaded := InitializeColumnData(s);
    ghost var trees: seq<Rooted> :| TreesOf(s.pages, trees) && |trees| == |s.pages| && loaded == Load(s, trees);
    NullAdjustmentIff(s, segment, more, runs, contents, trees);
    LoadedIs(s, trees, RunRows(runs), AllStrings(contents));
    var cells := ReadToEnd(loaded.value.value);
    r := Returned(Defined(cells));
  }

  /** One packed value and one run of an id, both meant for the string "a" of a nullable column. */
  const LOST_RUNS: seq<Run> := [Packed([0x1_0000_0000]), Rle(0, 1)]
  const LOST_CONTENTS: seq<Content> := [Raw([[97]], 0)]

  /** With first id 0 the packed one reads as null and the other as the string. */
  lemma LostStringExample(s: Source, segment: Segment, trees: seq<Rooted>)
    requires s.minDataId == 0 && s.nullable && ColumnWritten(s, segment, [], LOST_RUNS, LOST_CONTENTS)
    requires |trees| == |s.pages| && TreesOf(s.pages, trees)
    ensures LoadsAs(s, trees, RunRows(LOST_RUNS), AllStrings(LOST_CONTENTS))
    ensures Cells(Load(s, trees).value.value) == [Null, Str([97])]
    ensures IntendedCells(AllStrings(LOST_CONTENTS), 0, true, LOST_RUNS) == [Str([97]), Str([97])]
  {
    hide TreesOf, Load, LoadsAs, ColumnWritten;
    LostParts();
    ColumnReadsBack(s, segment, [], LOST_RUNS, LOST_CONTENTS, trees);
    CellsReadBack(s, trees, RunRows(LOST_RUNS), AllStrings(LOST_CONTENTS));
    LoadedIs(s, trees, RunRows(LOST_RUNS), AllStrings(LOST_CONTENTS));
  }

  lemma LostParts()
    ensures RunRows(LOST_RUNS) == [0x1_0000_0000, 0] && AllStrings(LOST_CONTENTS) == [[97]]
    ensures NoCollision(LOST_RUNS, 0)
    ensures IntendedCells([[97]], 0, true, LOST_RUNS) == [Str([97]), Str([97])]
  {
    var last: seq<Run> := [Rle(0, 1)];
    assert LOST_RUNS[1..] == last && last[1..] == [];
    assert Repeat(0, 1) == [0];
    assert RunRows(last) == Repeat(0, 1) + [] == [0];
    assert RunRows(LOST_RUNS) == [0x1_0000_0000] + RunRows(last);
    assert NoCollision(last, 1);
    assert LOST_CONTENTS[..0] == [] && StringsOf(LOST_CONTENTS[0]) == [[97]] + Empties(0);
    assert DistanceOf(0, true, 0x1_0000_0000) == 1;
    assert PackedCells([[97]], 0, true, [0x1_0000_0000]) == [Str([97])];
    assert IntendedCells([[97]], 0, true, last) == [Str([97])] + [];
    assert IntendedCells([[97]], 0, true, LOST_RUNS) == [Str([97])] + IntendedCells([[97]], 0, true, last);
  }
}
