/** The shared row-range dispenser of the scan: adaptive slices handed out under a lock. */
module Dispenser {
  import opened Machine

  const ROWS_PER_GROUP: uint64 := 122880
  const MAX_ROWS: int := 20_000_000_000_000

  /** Rows `start` to `end`, both included. */
  datatype Slice = Slice(start: uint64, end: uint64)

  /** The fields of the global state. */
  datatype Shared = Shared(position: uint64, rowsPerGroup: uint64)

  /** The smallest and largest row id, when `GetRowIdInfo` accepts them. */
  datatype RowIds = RowIds(min: uint64, max: uint64)

  predicate UsableIds(ids: RowIds) {
    ids.min < ids.max < TWO_64 / 2 && ids.max - ids.min < MAX_ROWS
  }

  /** `GetRowIdInfo`, given the smallest and the largest row id of a table, which are 64-bit signed:
      the range is used if it is not negative, not a single id, and not too wide. */
  method GetRowIdInfo(minVal: int, maxVal: int) returns (ids: Option<RowIds>)
    requires -TWO_64 / 2 <= minVal < TWO_64 / 2 && -TWO_64 / 2 <= maxVal < TWO_64 / 2
    ensures ids == if 0 <= minVal < maxVal && maxVal - minVal < 20_000_000_000_000
                   then Some(RowIds(minVal, maxVal)) else None
    ensures ids.Some? <==> 0 <= minVal && 0 <= maxVal && UsableIds(RowIds(minVal, maxVal))
  {
    if minVal < 0 || maxVal <= minVal {
      return None;
    }
    if maxVal - minVal >= MAX_ROWS {
      return None;
    }
    ids := Some(RowIds(minVal, maxVal));
  }

  /** `PbixInitGlobalState`: one row before the first, if there is one. */
  function First(ids: RowIds): nat {
    if ids.min > 0 then ids.min - 1 else 0
  }

  function InitialShared(ids: RowIds): Shared
    requires UsableIds(ids)
  {
    Shared(First(ids), ROWS_PER_GROUP)
  }

  datatype Offer = Granted(slice: Slice, shared: Shared) | Refused | InternalError

  /** The rows per group a caller gets: doubled after a slice without rows. */
  function GroupFor(g: Shared, scanCount: nat, max: nat): uint64 {
    if scanCount == 0 && g.rowsPerGroup < max then Wrap64(2 * g.rowsPerGroup) else g.rowsPerGroup
  }

  /** The parallel branch of `PbixParallelStateNext`, in 64-bit arithmetic. */
  function Next(g: Shared, scanCount: nat, max: uint64): Offer {
    if g.position >= max then Refused
    else
      var group := GroupFor(g, scanCount, max);
      if group == 0 then InternalError
      else
        var end: uint64 := Min(max, Wrap64(Wrap64(g.position + group) - 1));
        Granted(Slice(g.position, end), Shared(Wrap64(end + 1), group))
  }

  // ----- what every call keeps

  /** Consecutive slices from `first` to just before `position`, none of them empty. */
  predicate Contiguous(log: seq<Slice>, first: nat, position: nat) {
    if log == [] then position == first
    else
      var last := log[|log| - 1];
      first <= last.start <= last.end && position == last.end + 1 && Contiguous(log[..|log| - 1], first, last.start)
  }

  /** All slices but the last are at least a default group. */
  predicate LongSlices(log: seq<Slice>) {
    forall i :: 0 <= i < |log| - 1 ==> log[i].end - log[i].start + 1 >= ROWS_PER_GROUP
  }

  /** The state after the slices of `log` have been handed out. */
  predicate DispenserKeeps(ids: RowIds, g: Shared, log: seq<Slice>) {
    UsableIds(ids)
    && Contiguous(log, First(ids), g.position) && First(ids) <= g.position <= ids.max + 1
    && ROWS_PER_GROUP <= g.rowsPerGroup
    && (log == [] ==> g.rowsPerGroup == ROWS_PER_GROUP)
    // the group size is paid for by rows already handed out
    && (log != [] && g.position <= ids.max ==> g.rowsPerGroup <= g.position - First(ids))
    && (g.rowsPerGroup == ROWS_PER_GROUP || g.rowsPerGroup <= 2 * (g.position - First(ids)))
    && LongSlices(log)
    && (log != [] && g.position <= ids.max ==>
          log[|log| - 1].end - log[|log| - 1].start + 1 >= ROWS_PER_GROUP)
  }

  /** Nothing wraps: neither the doubling nor the end of the slice, and the internal error of a
      zero group size is out of reach. A caller with an earlier slice is one with a log. */
  lemma NothingWraps(ids: RowIds, g: Shared, log: seq<Slice>, scanCount: nat)
    requires DispenserKeeps(ids, g, log) && g.position < ids.max
    requires scanCount == 0 ==> log != []
    ensures var group := GroupFor(g, scanCount, ids.max);
            group == (if scanCount == 0 && g.rowsPerGroup < ids.max then 2 * g.rowsPerGroup else g.rowsPerGroup)
            && 0 < group && g.position + group - 1 < TWO_64
            && Next(g, scanCount, ids.max)
               == Granted(Slice(g.position, Min(ids.max, g.position + group - 1)),
                          Shared(Min(ids.max, g.position + group - 1) + 1, group))
  {
    hide Contiguous, LongSlices;
    GroupIsSmall(ids, g, log);
    var group := GroupFor(g, scanCount, ids.max);
    SmallSum(g.position, group);
  }

  lemma GroupIsSmall(ids: RowIds, g: Shared, log: seq<Slice>)
    requires DispenserKeeps(ids, g, log) && g.position < ids.max
    ensures ROWS_PER_GROUP <= g.rowsPerGroup <= MAX_ROWS + 1
  {
    hide Contiguous, LongSlices;
  }

  lemma SmallSum(position: nat, group: nat)
    requires position < TWO_64 / 2 && 0 < group <= 2 * (MAX_ROWS + 1)
    ensures Wrap64(position + group) == position + group
    ensures Wrap64(position + group - 1) == position + group - 1
    ensures Wrap64(position + 1) == position + 1
  {
  }

  /** One call of the dispenser keeps all of it. */
  lemma NextKeeps(ids: RowIds, g: Shared, log: seq<Slice>, scanCount: nat)
    requires DispenserKeeps(ids, g, log) && g.position < ids.max
    requires scanCount == 0 ==> log != []
    ensures Next(g, scanCount, ids.max).Granted?
    ensures DispenserKeeps(ids, Next(g, scanCount, ids.max).shared, log + [Next(g, scanCount, ids.max).slice])
    ensures g.position < Next(g, scanCount, ids.max).shared.position
  {
    NothingWraps(ids, g, log, scanCount);
    var offer := Next(g, scanCount, ids.max);
    var more := log + [offer.slice];
    assert more[..|more| - 1] == log;
    assert more[|more| - 1] == offer.slice;
  }

  // ----- what follows for the row ids

  predicate In(s: Slice, id: int) {
    s.start <= id <= s.end
  }

  ghost predicate Dispensed(log: seq<Slice>, id: int) {
    exists i :: 0 <= i < |log| && In(log[i], id)
  }

  /** Every id from the first to the position is in exactly one slice, and no other id in any. */
  lemma {:induction false} ExactlyOnce(log: seq<Slice>, first: nat, position: nat, id: int)
    requires Contiguous(log, first, position)
    ensures first <= position
    ensures first <= id < position <==> Dispensed(log, id)
    ensures forall i, j :: 0 <= i < j < |log| ==> !(In(log[i], id) && In(log[j], id))
  {
    if log == [] {
    } else {
      var n := |log| - 1;
      ExactlyOnce(log[..n], first, log[n].start, id);
      if Dispensed(log[..n], id) {
        var i :| 0 <= i < n && In(log[..n][i], id);
        assert In(log[i], id);
      }
      forall i | 0 <= i < n && In(log[i], id)
        ensures id < log[n].start
      {
        assert In(log[..n][i], id);
        assert Dispensed(log[..n], id);
      }
      forall i, j | 0 <= i < j < n
        ensures !(In(log[i], id) && In(log[j], id))
      {
        assert !(In(log[..n][i], id) && In(log[..n][j], id));
      }
    }
  }

  /** When the dispenser refuses, every id but perhaps the last is out; the last is exactly if the
      position went past it. */
  lemma WhenExhausted(ids: RowIds, g: Shared, log: seq<Slice>)
    requires DispenserKeeps(ids, g, log) && g.position >= ids.max
    ensures g.position == ids.max || g.position == ids.max + 1
    ensures forall id :: ids.min <= id < ids.max ==> Dispensed(log, id)
    ensures Dispensed(log, ids.max) <==> g.position == ids.max + 1
  {
    forall id | ids.min <= id < ids.max
      ensures Dispensed(log, id)
    {
      ExactlyOnce(log, First(ids), g.position, id);
    }
    ExactlyOnce(log, First(ids), g.position, ids.max);
  }

  lemma {:induction false} LongRuns(log: seq<Slice>, first: nat, position: nat)
    requires Contiguous(log, first, position)
    requires forall i :: 0 <= i < |log| ==> log[i].end - log[i].start + 1 >= ROWS_PER_GROUP
    ensures |log| * ROWS_PER_GROUP <= position - first
  {
    if log != [] {
      LongRuns(log[..|log| - 1], first, log[|log| - 1].start);
    }
  }

  /** The number of slices is bounded by the rows handed out in default groups, and one more. */
  lemma SliceCount(ids: RowIds, g: Shared, log: seq<Slice>)
    requires DispenserKeeps(ids, g, log) && log != []
    ensures (|log| - 1) * ROWS_PER_GROUP < g.position - First(ids) <= ids.max - ids.min + 2
  {
    var n := |log| - 1;
    LongRuns(log[..n], First(ids), log[n].start);
  }

  // ----- the row that may be missed

  /** Slices of the default size, cut off at `max`: what is handed out as long as no slice turns out
      to be without rows. */
  function PositionAfter(first: nat, max: nat, n: nat): nat {
    if n == 0 then first
    else
      var before := PositionAfter(first, max, n - 1);
      if before >= max then before else Min(max, before + ROWS_PER_GROUP - 1) + 1
  }

  lemma {:induction false} PositionIs(first: nat, max: nat, n: nat)
    requires first <= max
    ensures PositionAfter(first, max, n)
         == if first + n * ROWS_PER_GROUP <= max then first + n * ROWS_PER_GROUP
            else if first + (max - first) / ROWS_PER_GROUP * ROWS_PER_GROUP == max then max else max + 1
  {
    if n == 0 {
    } else {
      PositionIs(first, max, n - 1);
    }
  }

  /** While no slice is empty of rows, the largest row id is never handed out exactly when the
      distance to it from the first is a multiple of the default group. */
  lemma LastRowMissedIff(ids: RowIds, n: nat)
    requires UsableIds(ids) && PositionAfter(First(ids), ids.max, n) >= ids.max
    ensures PositionAfter(First(ids), ids.max, n) == ids.max <==> (ids.max - First(ids)) % ROWS_PER_GROUP == 0
  {
    PositionIs(First(ids), ids.max, n);
  }

  /** Callers that found rows in their slices move the position just so. */
  lemma DefaultNext(ids: RowIds, g: Shared, log: seq<Slice>, scanCount: nat, n: nat)
    requires DispenserKeeps(ids, g, log) && g.rowsPerGroup == ROWS_PER_GROUP && scanCount > 0
    requires g.position == PositionAfter(First(ids), ids.max, n) < ids.max
    ensures var offer := Next(g, scanCount, ids.max);
            offer.Granted? && offer.shared == Shared(PositionAfter(First(ids), ids.max, n + 1), ROWS_PER_GROUP)
  {
    NothingWraps(ids, g, log, scanCount);
  }

  /** A table of exactly one default group, numbered from 1: its last row is never scanned. */
  lemma LastRowMissedExample()
    ensures var ids := RowIds(1, 122880);
            UsableIds(ids)
            && Next(InitialShared(ids), 1, 122880) == Granted(Slice(0, 122879), Shared(122880, ROWS_PER_GROUP))
            && Next(Shared(122880, ROWS_PER_GROUP), 1, 122880) == Refused
  {
  }
}
