/** The scan of a metadata table by several threads: `PbixInitLocalState`, `PbixScan` and the
    dispenser they share, step by step. */
module Scan {
  import opened Machine
  import opened Dispenser

  datatype Row = Row(id: uint64, cells: seq<byte>)

  /** What a scan is over: the rows by ascending id, and the range of ids if the scan is parallel. */
  datatype Table = Table(rows: seq<Row>, ids: Option<RowIds>)

  predicate Ascending(rows: seq<Row>) {
    forall i, j :: 0 <= i < j < |rows| ==> rows[i].id < rows[j].id
  }

  predicate WellFormed(t: Table) {
    Ascending(t.rows)
    && (t.ids.Some? ==>
          UsableIds(t.ids.value)
          && forall i :: 0 <= i < |t.rows| ==> t.ids.value.min <= t.rows[i].id <= t.ids.value.max)
  }

  /** `WHERE ROWID BETWEEN start AND end`. */
  function RowsIn(rows: seq<Row>, start: int, end: int): seq<Row> {
    if rows == [] then []
    else (if start <= rows[0].id <= end then [rows[0]] else []) + RowsIn(rows[1..], start, end)
  }

  /** Where a thread stands: not yet initialised, between two calls of the scan, at the head of the
      outer loop, in the inner loop, or done: after an empty chunk DuckDB does not call again. */
  datatype Phase = New | Idle | Outer | Inner | Finished

  /** A thread's local state; `rest` is what its statement has still to give, `out` the chunk being
      filled. `chunks` and `slices` record what it returned and what it was granted. */
  datatype Thread = Thread(phase: Phase, done: bool, scanCount: nat, rest: seq<Row>, out: seq<Row>,
                           chunks: seq<seq<Row>>, slices: seq<Slice>)

  const NEW_THREAD: Thread := Thread(New, false, 1, [], [], [], [])

  /** The outcome of `PbixParallelStateNext` for a thread. */
  datatype Turned = Turned(granted: bool, shared: Shared, thread: Thread)

  /** `PbixParallelStateNext`: either branch. */
  function TakeSlice(t: Table, g: Shared, th: Thread): Turned {
    match t.ids
    case None =>
      if g.position > 0 then Turned(false, g, th)
      else Turned(true, g.(position := TWO_64 - 1),
                  th.(done := false, scanCount := 0, rest := t.rows, slices := th.slices + [Slice(0, 0)]))
    case Some(ids) =>
      match Next(g, th.scanCount, ids.max)
      case Granted(slice, shared) =>
        Turned(true, shared, th.(done := false, scanCount := 0, rest := RowsIn(t.rows, slice.start, slice.end),
                                 slices := th.slices + [slice]))
      case _ => Turned(false, g, th)
  }

  /** One turn of a thread: up to the next point where another thread may be seen. */
  function Turn(t: Table, g: Shared, th: Thread): (Shared, Thread)
    requires th.phase != Finished
  {
    match th.phase
    case New =>
      var next := TakeSlice(t, g, th);
      if next.granted then (next.shared, next.thread.(phase := Idle))
      else (next.shared, th.(phase := Idle, done := true))
    case Idle => (g, th.(phase := Outer))
    case Outer =>
      if !th.done then (g, th.(phase := Inner))
      else
        var next := TakeSlice(t, g, th);
        if next.granted then (next.shared, next.thread.(phase := Inner))
        else (next.shared, th.(phase := Finished, chunks := th.chunks + [[]]))
    case Inner =>
      if |th.out| == STANDARD_VECTOR_SIZE then (g, th.(phase := Idle, chunks := th.chunks + [th.out], out := []))
      else if th.rest != [] then
        (g, th.(scanCount := th.scanCount + 1, out := th.out + [th.rest[0]], rest := th.rest[1..]))
      else if th.out == [] then (g, th.(phase := Outer, done := true))
      else (g, th.(phase := Idle, done := true, chunks := th.chunks + [th.out], out := []))
  }

  /** `n` turns of one thread that no other thread comes in between. */
  function Turns(t: Table, g: Shared, th: Thread, n: nat): (Shared, Thread) {
    if n == 0 then (g, th)
    else
      var (g', th') := Turns(t, g, th, n - 1);
      if th'.phase == Finished then (g', th') else Turn(t, g', th')
  }

  /** What holds of the shared state after the slices of `log`. */
  predicate Keeps(t: Table, g: Shared, log: seq<Slice>) {
    match t.ids
    case Some(ids) => DispenserKeeps(ids, g, log)
    case None => (g.position == 0 && log == []) || (g.position == TWO_64 - 1 && |log| == 1)
  }

  /** Ids, or the one whole table, that have not been handed out. */
  function Undispensed(t: Table, g: Shared): nat {
    match t.ids
    case Some(ids) => if g.position <= ids.max then ids.max + 1 - g.position else 0
    case None => if g.position == 0 then 1 else 0
  }

  predicate Exhausted(t: Table, g: Shared) {
    match t.ids
    case Some(ids) => g.position >= ids.max
    case None => g.position > 0
  }

  /** Being granted a slice keeps the dispenser's invariant and uses ids up; a refusal changes
      nothing and means that there is no slice left. */
  lemma TakeSliceKeeps(t: Table, g: Shared, th: Thread, log: seq<Slice>)
    requires Keeps(t, g, log) && (th.scanCount == 0 ==> log != [])
    ensures var next := TakeSlice(t, g, th);
            next.granted == !Exhausted(t, g)
            && (next.granted ==>
                  Keeps(t, next.shared, log + [next.thread.slices[|th.slices|]])
                  && |next.thread.slices| == |th.slices| + 1 && next.thread.chunks == th.chunks
                  && next.thread.scanCount == 0 && !next.thread.done
                  && Undispensed(t, next.shared) < Undispensed(t, g))
            && (!next.granted ==> next.shared == g && next.thread == th)
  {
    if t.ids.Some? && g.position < t.ids.value.max {
      NextKeeps(t.ids.value, g, log, th.scanCount);
    }
  }

  // ----- the scan as the source runs it

  function InitialOf(t: Table): Shared
    requires WellFormed(t)
  {
    match t.ids case Some(ids) => InitialShared(ids) case None => Shared(0, ROWS_PER_GROUP)
  }

  class GlobalState {
    var shared: Shared

    /** `PbixInitGlobalState`: nothing has been handed out, and everything is still to be. */
    constructor (t: Table)
      requires WellFormed(t)
      ensures shared == InitialOf(t)
      ensures shared.position == if t.ids.Some? && t.ids.value.min > 0 then t.ids.value.min - 1 else 0
      ensures shared.rowsPerGroup == 122880
      ensures Keeps(t, shared, []) && !Exhausted(t, shared)
    {
      var position: uint64 := 0;
      if t.ids.Some? {
        var minRowId := t.ids.value.min;
        if minRowId > 0 {
          position := minRowId - 1;
        }
      }
      shared := Shared(position, ROWS_PER_GROUP);
    }
  }

  class LocalState {
    var done: bool
    var scanCount: nat
    var rest: seq<Row>
    ghost var chunks: seq<seq<Row>>
    ghost var slices: seq<Slice>

    constructor ()
      ensures Value(New, []) == NEW_THREAD
    {
      done, scanCount, rest, chunks, slices := false, 1, [], [], [];
    }

    ghost function Value(phase: Phase, out: seq<Row>): Thread
      reads this
    {
      Thread(phase, done, scanCount, rest, out, chunks, slices)
    }

    /** `PbixParallelStateNext`, under the lock. */
    method ParallelStateNext(t: Table, g: GlobalState) returns (granted: bool)
      modifies this, g
      ensures forall phase, out ::
                Turned(granted, g.shared, Value(phase, out)) == TakeSlice(t, old(g.shared), old(Value(phase, out)))
    {
      if t.ids.None? {
        if g.shared.position > 0 {
          return false;
        }
        rest, done, slices := t.rows, false, slices + [Slice(0, 0)];
        g.shared := g.shared.(position := TWO_64 - 1);
        scanCount := 0;
        return true;
      }
      granted := false;
      var offer := Next(g.shared, scanCount, t.ids.value.max);
      if offer.Granted? {
        rest, done := RowsIn(t.rows, offer.slice.start, offer.slice.end), false;
        slices := slices + [offer.slice];
        g.shared := offer.shared;
        scanCount := 0;
        return true;
      }
    }

    /** `PbixInitLocalState`. */
    method Init(t: Table, g: GlobalState)
      modifies this, g
      ensures (g.shared, Value(Idle, [])) == Turn(t, old(g.shared), old(Value(New, [])))
      ensures done <==> slices == old(slices)
    {
      var granted := ParallelStateNext(t, g);
      assert Turned(granted, g.shared, Value(New, [])) == TakeSlice(t, old(g.shared), old(Value(New, [])));
      if !granted {
        done := true;
      }
    }

    /** The inner loop: rows of the current statement until the chunk is full or they run out. */
    method FillChunk(t: Table, ghost g: Shared) returns (output: seq<Row>, full: bool, ghost turns: nat)
      modifies this
      ensures Turns(t, g, old(Value(Inner, [])), turns) == (g, Value(Inner, output))
      ensures chunks == old(chunks) && slices == old(slices) && done == old(done)
      ensures scanCount == old(scanCount) + |output|
      ensures full == (|output| == 2048) && |output| <= 2048
      ensures !full ==> rest == []
    {
      output, turns := [], 0;
      while |output| != STANDARD_VECTOR_SIZE
        invariant Turns(t, g, old(Value(Inner, [])), turns) == (g, Value(Inner, output))
        invariant |output| <= STANDARD_VECTOR_SIZE
        invariant chunks == old(chunks) && slices == old(slices) && done == old(done)
        invariant scanCount == old(scanCount) + |output|
        decreases |rest|
      {
        if rest == [] {
          return output, false, turns;
        }
        ghost var before := Value(Inner, output);
        scanCount := scanCount + 1;
        output := output + [rest[0]];
        rest := rest[1..];
        assert Turn(t, g, before) == (g, Value(Inner, output));
        turns := turns + 1;
      }
      full := true;
    }

    /** One call of `PbixScan` that no other thread comes in between: a number of turns from being
        called to standing between two calls again, or to the end. The outer loop ends by the ids
        not handed out, the inner one by the rows left in the slice. */
    method Scan(t: Table, g: GlobalState, ghost log: seq<Slice>)
      returns (output: seq<Row>, ghost turns: nat, ghost more: seq<Slice>)
      requires Keeps(t, g.shared, log) && (scanCount == 0 ==> log != [])
      modifies this, g
      ensures Turns(t, old(g.shared), old(Value(Idle, [])), turns)
           == (g.shared, Value(if output == [] then Finished else Idle, []))
      ensures chunks == old(chunks) + [output] && |output| <= 2048
      ensures Keeps(t, g.shared, more) && (output == [] ==> Exhausted(t, g.shared))
    {
      hide Turn, Turns, TakeSlice, Keeps, Undispensed, Exhausted;
      ghost var g0, start := g.shared, Value(Idle, []);
      output, turns, more := [], 1, log;
      TurnCalled(t, g0, start);
      TurnsStep(t, g0, start, 0, g0, start);
      while output == []
        invariant Turns(t, g0, start, turns) == (g.shared, Value(Outer, []))
        invariant chunks == old(chunks) && output == []
        invariant Keeps(t, g.shared, more) && (scanCount == 0 ==> more != [])
        decreases Undispensed(t, g.shared), if done then 0 else 1
      {
        ghost var shared, before := g.shared, Value(Outer, []);
        TakeSliceKeeps(t, shared, before, more);
        TurnOuter(t, shared, before);
        TurnsStep(t, g0, start, turns, shared, before);
        if done {
          var granted := ParallelStateNext(t, g);
          assert Turned(granted, g.shared, Value(Outer, [])) == TakeSlice(t, shared, before);
          if !granted {
            chunks := chunks + [[]];
            turns := turns + 1;
            return;
          }
          more := more + [slices[|slices| - 1]];
        }
        turns := turns + 1;
        ghost var filling := Value(Inner, []);
        assert Turns(t, g0, start, turns) == (g.shared, filling);
        var full: bool;
        ghost var inner: nat;
        output, full, inner := FillChunk(t, g.shared);
        ghost var filled := Value(Inner, output);
        TurnsAdd(t, g0, start, turns, inner);
        turns := turns + inner;
        TurnInnerEnd(t, g.shared, filled);
        TurnsStep(t, g0, start, turns, g.shared, filled);
        turns := turns + 1;
        if full {
          chunks := chunks + [output];
          return;
        }
        done := true;
        if output != [] {
          chunks := chunks + [output];
          return;
        }
      }
    }
  }

  lemma TurnsStep(t: Table, g: Shared, th: Thread, n: nat, g': Shared, th': Thread)
    requires Turns(t, g, th, n) == (g', th') || (n == 0 && g' == g && th' == th)
    requires th'.phase != Finished
    ensures Turns(t, g, th, n + 1) == Turn(t, g', th')
  {
    hide Turn;
  }

  lemma TurnCalled(t: Table, g: Shared, th: Thread)
    requires th.phase == Idle
    ensures Turn(t, g, th) == (g, th.(phase := Outer))
  {
  }

  lemma TurnOuter(t: Table, g: Shared, th: Thread)
    requires th.phase == Outer
    ensures !th.done ==> Turn(t, g, th) == (g, th.(phase := Inner))
    ensures th.done && TakeSlice(t, g, th).granted ==>
              Turn(t, g, th) == (TakeSlice(t, g, th).shared, TakeSlice(t, g, th).thread.(phase := Inner))
    ensures th.done && !TakeSlice(t, g, th).granted ==>
              Turn(t, g, th) == (TakeSlice(t, g, th).shared, th.(phase := Finished, chunks := th.chunks + [[]]))
  {
    hide TakeSlice;
  }

  lemma TurnInnerEnd(t: Table, g: Shared, th: Thread)
    requires th.phase == Inner && (|th.out| == STANDARD_VECTOR_SIZE || th.rest == [])
    ensures |th.out| == STANDARD_VECTOR_SIZE ==>
              Turn(t, g, th) == (g, th.(phase := Idle, chunks := th.chunks + [th.out], out := []))
    ensures |th.out| != STANDARD_VECTOR_SIZE && th.out == [] ==>
              Turn(t, g, th) == (g, th.(phase := Outer, done := true))
    ensures |th.out| != STANDARD_VECTOR_SIZE && th.out != [] ==>
              Turn(t, g, th) == (g, th.(phase := Idle, done := true, chunks := th.chunks + [th.out], out := []))
  {
  }

  lemma {:induction false} TurnsAdd(t: Table, g: Shared, th: Thread, m: nat, n: nat)
    ensures var (g', th') := Turns(t, g, th, m); Turns(t, g', th', n) == Turns(t, g, th, m + n)
  {
    hide Turn;
    if n == 0 {
    } else {
      TurnsAdd(t, g, th, m, n - 1);
    }
  }
}
