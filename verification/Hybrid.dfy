/** `readRLEBitPackedHybrid`: run-length entries and bit-packed stretches in one row sequence. */
module Hybrid {
  import opened Machine
  import opened Idf
  import opened BitPacking

  const MARKER: uint32 := 0xFFFF_FFFF

  /** The values the bit-packed entries are taken from, or undefined behaviour: the last element
      of an empty vector, a width the shifts and the division do not allow. */
  function Pool(s: Segment, entries: uint64, base: uint64, w: nat): Outcome<seq<uint64>> {
    if entries == 0 then Defined([])
    else if s.sub == [] then Undefined
    else if s.sub[|s.sub| - 1] == 0 && s.subSize == 1 then Defined(seq(entries, _ => base))
    else if UsableWidth(w) then Defined(Unpack(s.sub, w, base))
    else Undefined
  }

  function Before(head: seq<uint64>, o: Outcome<seq<uint64>>): Outcome<seq<uint64>> {
    match o
    case Defined(tail) => Defined(head + tail)
    case Undefined => Undefined
  }

  function Repeat(v: uint64, n: nat): (r: seq<uint64>)
    ensures |r| == n
  {
    seq(n, _ => v)
  }

  /** The rows of the primary entries when `offset` values have been taken from the pool. An entry
      is a marker exactly when its value and the offset add up to `MARKER`. */
  function RowsOf(es: seq<Entry>, pool: seq<uint64>, offset: nat): Outcome<seq<uint64>> {
    if es == [] then Defined([])
    else if es[0].dataValue + offset == MARKER then
      if offset + es[0].repeatValue > |pool| then Undefined
      else Before(pool[offset..offset + es[0].repeatValue], RowsOf(es[1..], pool, offset + es[0].repeatValue))
    else Before(Repeat(es[0].dataValue, es[0].repeatValue), RowsOf(es[1..], pool, offset))
  }

  /** The rows of a parsed file: only its first segment is read. */
  function Rows(segments: seq<Segment>, entries: uint64, base: uint64, w: nat): Outcome<seq<uint64>> {
    if segments == [] then Defined([])
    else match Pool(segments[0], entries, base, w)
      case Undefined => Undefined
      case Defined(pool) => RowsOf(segments[0].primary, pool, 0)
  }

  lemma BeforeNothing(o: Outcome<seq<uint64>>)
    ensures Before([], o) == o
  {
    if o.Defined? {
      assert [] + o.value == o.value;
    }
  }

  lemma BeforeTwice(a: seq<uint64>, b: seq<uint64>, o: Outcome<seq<uint64>>)
    ensures Before(a, Before(b, o)) == Before(a + b, o)
  {
    if o.Defined? {
      assert a + (b + o.value) == (a + b) + o.value;
    }
  }

  lemma RowsStep(es: seq<Entry>, k: nat, done: seq<uint64>, pool: seq<uint64>, offset: nat)
    requires k < |es|
    ensures Before(done, RowsOf(es[k..], pool, offset))
         == if es[k].dataValue + offset == MARKER then
              if offset + es[k].repeatValue > |pool| then Undefined
              else Before(done + pool[offset..offset + es[k].repeatValue],
                          RowsOf(es[k + 1..], pool, offset + es[k].repeatValue))
            else Before(done + Repeat(es[k].dataValue, es[k].repeatValue), RowsOf(es[k + 1..], pool, offset))
  {
    assert es[k..][1..] == es[k + 1..];
    var n := es[k].repeatValue;
    if es[k].dataValue + offset != MARKER {
      BeforeTwice(done, Repeat(es[k].dataValue, n), RowsOf(es[k + 1..], pool, offset));
    } else if offset + n <= |pool| {
      BeforeTwice(done, pool[offset..offset + n], RowsOf(es[k + 1..], pool, offset + n));
    }
  }

  /** The loop over the primary segment. */
  method ReadPrimary(primary: seq<Entry>, pool: seq<uint64>) returns (r: Outcome<seq<uint64>>)
    ensures r == RowsOf(primary, pool, 0)
  {
    hide RowsOf;
    var vector: seq<uint64> := [];
    var bitPackedOffset: nat := 0;
    assert primary[0..] == primary;
    BeforeNothing(RowsOf(primary, pool, 0));
    for k := 0 to |primary|
      invariant RowsOf(primary, pool, 0) == Before(vector, RowsOf(primary[k..], pool, bitPackedOffset))
    {
      var entry := primary[k];
      RowsStep(primary, k, vector, pool, bitPackedOffset);
      if entry.dataValue + bitPackedOffset == MARKER {
        var bitPackedEntries := entry.repeatValue;
        if bitPackedOffset + bitPackedEntries > |pool| {
          return Undefined;
        }
        vector := vector + pool[bitPackedOffset..bitPackedOffset + bitPackedEntries];
        bitPackedOffset := bitPackedOffset + bitPackedEntries;
      } else {
        var rle := Repeat(entry.dataValue, entry.repeatValue);
        vector := vector + rle;
      }
    }
    RowsEnd(primary, pool, bitPackedOffset);
    assert vector + [] == vector;
    r := Defined(vector);
  }

  lemma RowsEnd(es: seq<Entry>, pool: seq<uint64>, offset: nat)
    ensures RowsOf(es[|es|..], pool, offset) == Defined([])
  {
  }

  /** `readRLEBitPackedHybrid`, from the bytes of the file. */
  method ReadRleBitPackedHybrid(idf: seq<byte>, entries: uint64, base: uint64, w: nat)
    returns (r: Result<Outcome<seq<uint64>>>)
    ensures r == match ParseAll(idf)
                 case Threw => Threw
                 case Returned(segments) => Returned(Rows(segments, entries, base, w))
  {
    hide ParseAll, Unpack;
    var stream := new KStream(idf);
    assert idf[0..] == idf;
    var columnData := stream.ReadAll();
    if columnData.Threw? {
      return Threw;
    }
    var segments := columnData.value;
    var bitpackedValues: seq<uint64> := [];
    if entries > 0 && segments != [] {
      var segment := segments[0];
      if segment.sub == [] {
        return Returned(Undefined);
      }
      if segment.sub[|segment.sub| - 1] == 0 && segment.subSize == 1 {
        bitpackedValues := Repeat(base, entries);
      } else {
        if !UsableWidth(w) {
          return Returned(Undefined);
        }
        bitpackedValues := ReadBitPacked(segment.sub, w, base);
      }
    }
    if segments != [] {
      var rows := ReadPrimary(segments[0].primary, bitpackedValues);
      return Returned(rows);
    }
    r := Returned(Defined([]));
  }

  // ----- the writer

  datatype Run = Rle(value: uint32, count: uint32) | Packed(values: seq<uint64>)

  /** The rows a list of runs stands for. */
  function RunRows(runs: seq<Run>): seq<uint64> {
    if runs == [] then []
    else (match runs[0] case Rle(v, n) => Repeat(v, n) case Packed(vs) => vs) + RunRows(runs[1..])
  }

  /** The values of the packed runs, in order. */
  function PackedValues(runs: seq<Run>): seq<uint64> {
    if runs == [] then []
    else (match runs[0] case Rle(_, _) => [] case Packed(vs) => vs) + PackedValues(runs[1..])
  }

  /** Each packed run is written as a marker that counts down by the values packed so far. */
  function PrimaryOf(runs: seq<Run>, soFar: nat): seq<Entry>
    requires soFar + |PackedValues(runs)| <= 0xFFFF_FFFF
  {
    if runs == [] then []
    else match runs[0]
      case Rle(v, n) => [Entry(v, n)] + PrimaryOf(runs[1..], soFar)
      case Packed(vs) => [Entry(0xFFFF_FFFF - soFar, |vs|)] + PrimaryOf(runs[1..], soFar + |vs|)
  }

  /** A run of equal values that the reader would take for a marker. */
  predicate Collides(run: Run, soFar: nat) {
    run.Rle? && run.count > 0 && run.value + soFar == 0xFFFF_FFFF
  }

  predicate NoCollision(runs: seq<Run>, soFar: nat) {
    runs == []
    || (!Collides(runs[0], soFar)
        && NoCollision(runs[1..], soFar + if runs[0].Packed? then |runs[0].values| else 0))
  }

  lemma {:induction false} RowsWithoutCollision(runs: seq<Run>, pool: seq<uint64>, soFar: nat)
    requires soFar + |PackedValues(runs)| <= 0xFFFF_FFFF && soFar + |PackedValues(runs)| <= |pool|
    requires pool[soFar..soFar + |PackedValues(runs)|] == PackedValues(runs)
    requires NoCollision(runs, soFar)
    ensures RowsOf(PrimaryOf(runs, soFar), pool, soFar) == Defined(RunRows(runs))
  {
    if runs == [] {
    } else {
      var es := PrimaryOf(runs, soFar);
      match runs[0]
      case Rle(v, n) =>
        assert es[1..] == PrimaryOf(runs[1..], soFar);
        assert PackedValues(runs) == PackedValues(runs[1..]);
        RowsWithoutCollision(runs[1..], pool, soFar);
        if n == 0 {
          assert Repeat(v, 0) == pool[soFar..soFar] == [];
        }
      case Packed(vs) =>
        assert es[1..] == PrimaryOf(runs[1..], soFar + |vs|);
        PoolSplit(pool, soFar, vs, PackedValues(runs[1..]));
        RowsWithoutCollision(runs[1..], pool, soFar + |vs|);
    }
  }

  lemma PoolSplit(pool: seq<uint64>, at: nat, a: seq<uint64>, b: seq<uint64>)
    requires at + |a + b| <= |pool| && pool[at..at + |a + b|] == a + b
    ensures pool[at..at + |a|] == a && pool[at + |a|..at + |a| + |b|] == b
  {
    assert pool[at..at + |a|] == pool[at..at + |a + b|][..|a|];
    assert pool[at + |a|..at + |a| + |b|] == pool[at..at + |a + b|][|a|..];
  }

  /** None of the values at places `from` to `to` of the pool is the marker of its own place. */
  predicate NoCoincidence(pool: seq<uint64>, from: nat, to: nat) {
    forall i :: from <= i <= to && i < |pool| ==> pool[i] + i != 0xFFFF_FFFF
  }

  lemma CollidingRunShows(v: uint32, n: uint32, rest: seq<Entry>, pool: seq<uint64>, soFar: nat, rows: seq<uint64>)
    requires 0 < n && v + soFar == 0xFFFF_FFFF && (soFar < |pool| ==> pool[soFar] != v)
    ensures RowsOf([Entry(v, n)] + rest, pool, soFar) != Defined(Repeat(v, n) + rows)
  {
    hide Before, Repeat;
    assert ([Entry(v, n)] + rest)[1..] == rest;
    if soFar + n <= |pool| {
      StartsWrong(pool, soFar, v, n, RowsOf(rest, pool, soFar + n), rows);
    }
  }

  /** A collision shows: the rows differ where the run should start, or the pool is overrun. */
  lemma {:induction false} CollisionShows(runs: seq<Run>, pool: seq<uint64>, soFar: nat, total: nat)
    requires soFar + |PackedValues(runs)| <= total <= 0xFFFF_FFFF && soFar + |PackedValues(runs)| <= |pool|
    requires pool[soFar..soFar + |PackedValues(runs)|] == PackedValues(runs)
    requires NoCoincidence(pool, soFar, total) && !NoCollision(runs, soFar)
    ensures RowsOf(PrimaryOf(runs, soFar), pool, soFar) != Defined(RunRows(runs))
  {
    var es := PrimaryOf(runs, soFar);
    match runs[0]
    case Rle(v, n) =>
      assert es[1..] == PrimaryOf(runs[1..], soFar);
      assert PackedValues(runs) == PackedValues(runs[1..]);
      if Collides(runs[0], soFar) {
        CollidingRunShows(v, n, es[1..], pool, soFar, RunRows(runs[1..]));
      } else {
        CollisionShows(runs[1..], pool, soFar, total);
        if n == 0 {
          assert Repeat(v, 0) == pool[soFar..soFar] == [];
        }
        SameHead(Repeat(v, n), RowsOf(es[1..], pool, soFar), RunRows(runs[1..]));
      }
    case Packed(vs) =>
      assert es[1..] == PrimaryOf(runs[1..], soFar + |vs|);
      PoolSplit(pool, soFar, vs, PackedValues(runs[1..]));
      CollisionShows(runs[1..], pool, soFar + |vs|, total);
      SameHead(vs, RowsOf(es[1..], pool, soFar + |vs|), RunRows(runs[1..]));
  }

  lemma StartsWrong(pool: seq<uint64>, at: nat, v: uint64, n: nat, o: Outcome<seq<uint64>>, rest: seq<uint64>)
    requires 0 < n && at + n <= |pool| && pool[at] != v
    ensures Before(pool[at..at + n], o) != Defined(Repeat(v, n) + rest)
  {
    if o.Defined? {
      assert (pool[at..at + n] + o.value)[0] == pool[at];
      assert (Repeat(v, n) + rest)[0] == v;
    }
  }

  lemma SameHead(head: seq<uint64>, o: Outcome<seq<uint64>>, rest: seq<uint64>)
    requires o != Defined(rest)
    ensures Before(head, o) != Defined(head + rest)
  {
    if o.Defined? {
      assert (head + o.value)[|head|..] == o.value && (head + rest)[|head|..] == rest;
    }
  }

  // ----- the whole file

  /** What is packed of the values: their distance from the base, modulo 2^64. */
  function Distances(values: seq<uint64>, base: uint64): (d: seq<nat>)
    ensures |d| == |values|
  {
    seq(|values|, i requires 0 <= i < |values| => Wrap64(values[i] - base))
  }

  lemma DistancesAdded(values: seq<uint64>, base: uint64)
    ensures AddBase(Distances(values, base), base) == values
  {
    forall i | 0 <= i < |values|
      ensures Wrap64(base + Wrap64(values[i] - base)) == values[i]
    {
    }
  }

  /** The runs that can be written with a base and a width. */
  predicate RunsWritable(runs: seq<Run>, base: uint64, w: nat) {
    0 < w < 64 && |PackedValues(runs)| <= 0xFFFF_FFFF && Fit(Distances(PackedValues(runs), base), w)
  }

  function SubOf(runs: seq<Run>, base: uint64, w: nat): seq<uint64>
    requires RunsWritable(runs, base, w)
  {
    PackWords(Distances(PackedValues(runs), base), w)
  }

  /** The segment that holds the runs, provided the reader can count its parts. */
  predicate Holds(s: Segment, runs: seq<Run>, base: uint64, w: nat) {
    RunsWritable(runs, base, w) && Sized(s) && Countable(s)
    && s.primary == PrimaryOf(runs, 0) && s.sub == SubOf(runs, base, w)
  }

  /** A single zero word means the base everywhere, with or without unpacking. */
  lemma ZeroWord(w: nat, base: uint64)
    requires UsableWidth(w)
    ensures Unpack([0], w, base) == Repeat(base, 64 / w)
  {
    FieldsOfPacked([], w, PerWord(w));
    assert [] + seq(PerWord(w), _ => 0) == seq(PerWord(w), _ => 0);
    AddBaseZeros(PerWord(w), base);
    assert [0][1..] == [];
  }

  lemma NothingPacked(values: seq<nat>, w: nat)
    requires UsableWidth(w) && Fit(values, w)
    ensures PackWords(values, w) == [] <==> values == []
  {
  }

  /** The pool begins with the packed values; anything after them is the base. */
  lemma PoolOfWritten(s: Segment, runs: seq<Run>, base: uint64, w: nat) returns (padding: nat)
    requires Holds(s, runs, base, w)
    ensures Pool(s, |PackedValues(runs)|, base, w) == Defined(PackedValues(runs) + Repeat(base, padding))
  {
    hide PackWords, Unpack, AddBase;
    var values := PackedValues(runs);
    var d := Distances(values, base);
    NothingPacked(d, w);
    padding := PackRoundTrip(d, w, base);
    DistancesAdded(values, base);
    if values == [] {
      padding := 0;
      assert values + Repeat(base, 0) == [];
    } else if s.sub[|s.sub| - 1] == 0 && s.subSize == 1 {
      assert s.sub == [0];
      ZeroWord(w, base);
      AllBase(values, base, padding, PerWord(w));
      padding := 0;
    }
  }

  lemma AllBase(values: seq<uint64>, base: uint64, padding: nat, n: nat)
    requires values + Repeat(base, padding) == Repeat(base, n)
    ensures Repeat(base, |values|) == values + Repeat(base, 0)
  {
    forall i | 0 <= i < |values|
      ensures values[i] == base
    {
      assert values[i] == (values + Repeat(base, padding))[i] == Repeat(base, n)[i];
    }
  }

  /** No packed value, and not the base after them, is the marker of its own place. */
  predicate Unmistakable(values: seq<uint64>, base: uint64) {
    NoCoincidence(values, 0, |values|) && base + |values| != 0xFFFF_FFFF
  }

  /** The round trip of a column file: written runs are read back row by row when no run of equal
      values is taken for a marker; and exactly then, as long as no packed value at place i is
      0xFFFFFFFF - i, nor the base at the place after them. */
  lemma HybridRoundTrip(runs: seq<Run>, s: Segment, more: seq<Segment>, base: uint64, w: nat)
    requires Holds(s, runs, base, w)
    requires forall i :: 0 <= i < |more| ==> Sized(more[i]) && Countable(more[i])
    ensures var total := |PackedValues(runs)|;
            var parsed := ParseAll(Serialise([s] + more));
            parsed == Returned([s] + more)
            && (NoCollision(runs, 0) ==> Rows([s] + more, total, base, w) == Defined(RunRows(runs)))
            && (Unmistakable(PackedValues(runs), base) ==>
                  (Rows([s] + more, total, base, w) == Defined(RunRows(runs)) <==> NoCollision(runs, 0)))
  {
    FileParses(s, more);
    var values := PackedValues(runs);
    var padding := PoolOfWritten(s, runs, base, w);
    var pool := values + Repeat(base, padding);
    assert pool[0..0 + |values|] == values;
    if NoCollision(runs, 0) {
      RowsWithoutCollision(runs, pool, 0);
    } else if Unmistakable(values, base) {
      PoolUnmistakable(values, base, padding);
      CollisionShows(runs, pool, 0, |values|);
    }
  }

  lemma PoolUnmistakable(values: seq<uint64>, base: uint64, padding: nat)
    requires Unmistakable(values, base)
    ensures NoCoincidence(values + Repeat(base, padding), 0, |values|)
  {
    var pool := values + Repeat(base, padding);
    forall i | 0 <= i <= |values| && i < |pool|
      ensures pool[i] + i != 0xFFFF_FFFF
    {
      if i < |values| {
        assert pool[i] == values[i];
      }
    }
  }

  lemma FileParses(s: Segment, more: seq<Segment>)
    requires Sized(s) && Countable(s) && forall i :: 0 <= i < |more| ==> Sized(more[i]) && Countable(more[i])
    ensures ParseAll(Serialise([s] + more)) == Returned([s] + more)
  {
    hide ParseAll, Serialise, Sized, Countable;
    forall i | 0 <= i < |[s] + more|
      ensures Sized(([s] + more)[i]) && Countable(([s] + more)[i])
    {
      assert i > 0 ==> ([s] + more)[i] == more[i - 1];
    }
    IdfRoundTrip([s] + more);
  }

  /** One packed stretch of `n` values, as a segment. */
  function Stretch(n: uint32, sub: seq<uint64>): Segment
    requires |sub| < TWO_64
  {
    Segment(1, [Entry(0xFFFF_FFFF, n)], |sub|, sub)
  }

  /** A single zero word stands for the base as often as the metadata says, whatever the width. */
  lemma ShortcutRows(entries: uint64, base: uint64, w: nat, n: uint32)
    requires 0 < n <= entries
    ensures Rows([Stretch(n, [0])], entries, base, w) == Defined(seq(n, _ => base))
  {
    var pool: seq<uint64> := seq(entries, _ => base);
    StretchRows(n, pool);
    assert pool[..n] == seq(n, _ => base);
  }

  lemma StretchRows(n: uint32, pool: seq<uint64>)
    ensures RowsOf([Entry(0xFFFF_FFFF, n)], pool, 0) == if n <= |pool| then Defined(pool[..n]) else Undefined
  {
    var es := [Entry(0xFFFF_FFFF, n)];
    assert es[1..] == [];
    if n <= |pool| {
      assert RowsOf(es[1..], pool, n) == Defined([]);
      assert pool[0..n] + [] == pool[..n];
    }
  }

  /** Without packed values in the metadata there is nothing to take from, whatever the segment holds;
      and words of no width between 1 and 63 cannot be unpacked. */
  lemma NothingToTake(sub: seq<uint64>, entries: uint64, base: uint64, w: nat, n: uint32)
    requires |sub| < TWO_64 && n > 0
    ensures entries == 0 ==> Rows([Stretch(n, sub)], entries, base, w) == Undefined
    ensures entries > 0 && sub == [] ==> Rows([Stretch(n, sub)], entries, base, w) == Undefined
    ensures entries > 0 && sub != [] && sub != [0] && !(0 < w < 64) ==>
              Rows([Stretch(n, sub)], entries, base, w) == Undefined
  {
    StretchRows(n, []);
  }

  function Repeats(es: seq<Entry>): nat {
    if es == [] then 0 else es[0].repeatValue + Repeats(es[1..])
  }

  /** Whatever a file says, the rows read are as many as its repeat counts add up to. */
  lemma {:induction false} RowCount(es: seq<Entry>, pool: seq<uint64>, offset: nat)
    requires RowsOf(es, pool, offset).Defined?
    ensures |RowsOf(es, pool, offset).value| == Repeats(es)
  {
    if es == [] {
    } else if es[0].dataValue + offset == 0xFFFF_FFFF {
      RowCount(es[1..], pool, offset + es[0].repeatValue);
    } else {
      RowCount(es[1..], pool, offset);
    }
  }

  /** A collision that changes rows: the run of 0xFFFFFFFF is read from the packed values. */
  lemma CollisionExample()
    ensures var runs := [Rle(0xFFFF_FFFF, 1), Packed([5])];
            !NoCollision(runs, 0) && RunRows(runs) == [0xFFFF_FFFF, 5] && |PackedValues(runs)| == 1
            && RowsOf(PrimaryOf(runs, 0), [5], 0) != Defined(RunRows(runs))
  {
    var runs := [Rle(0xFFFF_FFFF, 1), Packed([5])];
    assert runs[1..] == [Packed([5])] && runs[1..][1..] == [];
    assert PackedValues(runs[1..]) == [5] + PackedValues([]) && PackedValues(runs) == [] + PackedValues(runs[1..]);
    assert RunRows(runs[1..]) == [5] + RunRows([]) == [5];
    assert RunRows(runs) == Repeat(0xFFFF_FFFF, 1) + RunRows(runs[1..]) == [0xFFFF_FFFF, 5];
    var pool: seq<uint64> := [5];
    assert pool[0..1] == [5];
    CollisionShows(runs, pool, 0, 1);
  }

  /** A collision that goes unseen: a packed value that is the marker of its own place makes up for
      it, so the condition on them in `HybridRoundTrip` is needed. */
  lemma CoincidenceExample()
    ensures var runs := [Rle(0xFFFF_FFFF, 1), Packed([0xFFFF_FFFF])];
            !NoCollision(runs, 0) && |PackedValues(runs)| == 1 && !NoCoincidence([0xFFFF_FFFF], 0, 1)
            && RowsOf(PrimaryOf(runs, 0), [0xFFFF_FFFF], 0) == Defined(RunRows(runs))
  {
    var runs := [Rle(0xFFFF_FFFF, 1), Packed([0xFFFF_FFFF])];
    assert runs[1..] == [Packed([0xFFFF_FFFF])] && runs[1..][1..] == [];
    assert PackedValues(runs[1..]) == [0xFFFF_FFFF] + PackedValues([]);
    assert PackedValues(runs) == [] + PackedValues(runs[1..]);
    assert RunRows(runs[1..]) == [0xFFFF_FFFF] + RunRows([]) == [0xFFFF_FFFF];
    assert RunRows(runs) == Repeat(0xFFFF_FFFF, 1) + RunRows(runs[1..]) == [0xFFFF_FFFF, 0xFFFF_FFFF];
    assert Repeat(0xFFFF_FFFF, 1) == [0xFFFF_FFFF];
    var es := PrimaryOf(runs, 0);
    assert PrimaryOf(runs[1..], 0) == [Entry(0xFFFF_FFFF, 1)] + PrimaryOf([], 1) == [Entry(0xFFFF_FFFF, 1)];
    assert es == [Entry(0xFFFF_FFFF, 1)] + PrimaryOf(runs[1..], 0);
    assert es[1..] == [Entry(0xFFFF_FFFF, 1)] && es[1..][1..] == [];
    var pool: seq<uint64> := [0xFFFF_FFFF];
    assert pool[0..1] == [0xFFFF_FFFF];
    assert RowsOf(es[1..][1..], pool, 1) == Defined([]);
    assert RowsOf(es[1..], pool, 1) == Before(Repeat(0xFFFF_FFFF, 1), Defined([]))
        == Defined(Repeat(0xFFFF_FFFF, 1) + []);
    assert RowsOf(es, pool, 0) == Before([0xFFFF_FFFF], RowsOf(es[1..], pool, 1));
  }
}
