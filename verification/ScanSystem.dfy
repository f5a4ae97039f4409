/** Any number of scanning threads, in any interleaving: what every run keeps and what a finished
    run has returned. */
module ScanSystem {
  import opened Machine
  import opened Dispenser
  import opened Scan

  /** The shared state, the threads, and the slices granted so far, in order. */
  datatype System = System(shared: Shared, threads: seq<Thread>, log: seq<Slice>)

  function Initial(t: Table, n: nat): System
    requires WellFormed(t)
  {
    System(InitialOf(t), seq(n, _ => NEW_THREAD), [])
  }

  predicate CanTurn(s: System, i: nat) {
    i < |s.threads| && s.threads[i].phase != Finished
  }

  /** Thread `i` takes one turn. */
  function StepOf(t: Table, s: System, i: nat): System
    requires CanTurn(s, i)
  {
    var (g, th) := Turn(t, s.shared, s.threads[i]);
    var granted := if |th.slices| > |s.threads[i].slices| then [th.slices[|th.slices| - 1]] else [];
    System(g, s.threads[i := th], s.log + granted)
  }

  /** The threads take turns as the schedule says; an entry that names no thread, or one that is
      done, does nothing. */
  function Exec(t: Table, s: System, schedule: seq<nat>): System {
    if schedule == [] then s
    else
      var before := Exec(t, s, schedule[..|schedule| - 1]);
      var i := schedule[|schedule| - 1];
      if CanTurn(before, i) then StepOf(t, before, i) else before
  }

  // ----- what a thread keeps

  function SliceRows(t: Table, s: Slice): seq<Row> {
    if t.ids.Some? then RowsIn(t.rows, s.start, s.end) else t.rows
  }

  function RowsOfSlices(t: Table, slices: seq<Slice>): seq<Row> {
    if slices == [] then [] else RowsOfSlices(t, slices[..|slices| - 1]) + SliceRows(t, slices[|slices| - 1])
  }

  /** All a thread has returned, is about to return, and has still to read. */
  function Stream(th: Thread): seq<Row> {
    Concat(th.chunks) + th.out + th.rest
  }

  predicate ChunksFit(chunks: seq<seq<Row>>) {
    forall i :: 0 <= i < |chunks| ==> |chunks[i]| <= 2048
  }

  /** An empty chunk is returned only at the end. */
  predicate EmptyLast(chunks: seq<seq<Row>>, finished: bool) {
    forall i :: 0 <= i < |chunks| && chunks[i] == [] ==> finished && i == |chunks| - 1
  }

  predicate ThreadKeeps(t: Table, th: Thread) {
    Stream(th) == RowsOfSlices(t, th.slices)
    && ChunksFit(th.chunks) && EmptyLast(th.chunks, th.phase == Finished)
    && |th.out| <= STANDARD_VECTOR_SIZE && (th.phase != Inner ==> th.out == [])
    && (th.done ==> th.rest == []) && (th.phase == Finished ==> th.done) && (th.phase == Inner ==> !th.done)
    && (th.scanCount == 0 ==> th.slices != [])
    && (th.phase == New ==> th.rest == [] && !th.done)
  }

  lemma RowsOfSnoc(t: Table, slices: seq<Slice>, s: Slice)
    ensures RowsOfSlices(t, slices + [s]) == RowsOfSlices(t, slices) + SliceRows(t, s)
  {
    assert (slices + [s])[..|slices|] == slices;
  }

  /** What a grant does to a thread that has nothing left to read. */
  lemma TakeSliceStreams(t: Table, g: Shared, th: Thread)
    requires th.out == [] && th.rest == [] && Stream(th) == RowsOfSlices(t, th.slices)
    requires TakeSlice(t, g, th).granted
    ensures var th' := TakeSlice(t, g, th).thread;
            th'.slices == th.slices + [th'.slices[|th.slices|]] && !th'.done && th'.scanCount == 0
            && th'.chunks == th.chunks && th'.out == [] && th'.phase == th.phase
            && Stream(th') == Stream(th) + SliceRows(t, th'.slices[|th.slices|])
            && Stream(th') == RowsOfSlices(t, th'.slices)
  {
    var th' := TakeSlice(t, g, th).thread;
    RowsOfSnoc(t, th.slices, th'.slices[|th.slices|]);
  }

  /** A turn without a grant moves rows along the stream and loses none. */
  lemma InnerTurnStreams(t: Table, g: Shared, th: Thread)
    requires ThreadKeeps(t, th) && th.phase == Inner
    ensures var (g', th') := Turn(t, g, th);
            g' == g && Stream(th') == Stream(th) && th'.slices == th.slices && ThreadKeeps(t, th')
  {
    hide RowsOfSlices, Concat;
    if |th.out| == STANDARD_VECTOR_SIZE {
      ConcatSnoc(th.chunks, th.out);
    } else if th.rest != [] {
      assert th.out + th.rest == th.out + [th.rest[0]] + th.rest[1..];
    } else if th.out != [] {
      ConcatSnoc(th.chunks, th.out);
    }
  }

  /** Every turn keeps the thread's order: what it streams is the rows of its slices, and grows by
      exactly the rows of a slice just granted. */
  lemma TurnStreams(t: Table, g: Shared, th: Thread)
    requires ThreadKeeps(t, th) && th.phase != Finished
    ensures var (_, th') := Turn(t, g, th);
            ThreadKeeps(t, th')
            && ((th'.slices == th.slices && Stream(th') == Stream(th))
                || (|th'.slices| == |th.slices| + 1 && th'.slices[..|th.slices|] == th.slices
                    && Stream(th') == Stream(th) + SliceRows(t, th'.slices[|th.slices|])))
  {
    match th.phase
    case New =>
      if TakeSlice(t, g, th).granted {
        TakeSliceStreams(t, g, th);
      }
    case Idle =>
    case Outer =>
      if th.done {
        if TakeSlice(t, g, th).granted {
          TakeSliceStreams(t, g, th);
        } else {
          ConcatSnoc(th.chunks, []);
          assert Concat(th.chunks) + [] == Concat(th.chunks);
        }
      }
    case Inner => InnerTurnStreams(t, g, th);
  }

  // ----- what the threads keep together

  /** The rows all threads have between them. */
  function Streams(threads: seq<Thread>): multiset<Row> {
    if threads == [] then multiset{} else Streams(threads[..|threads| - 1]) + multiset(Stream(threads[|threads| - 1]))
  }

  lemma {:induction false} StreamsUpdate(threads: seq<Thread>, i: nat, th: Thread)
    requires i < |threads|
    ensures Streams(threads[i := th]) + multiset(Stream(threads[i])) == Streams(threads) + multiset(Stream(th))
    decreases |threads|
  {
    hide Stream;
    var n := |threads| - 1;
    if i == n {
      assert threads[i := th][..n] == threads[..n];
    } else {
      StreamsUpdate(threads[..n], i, th);
      assert threads[i := th][..n] == threads[..n][i := th];
      AddBoth(Streams(threads[..n][i := th]), multiset(Stream(threads[i])), Streams(threads[..n]),
              multiset(Stream(th)), multiset(Stream(threads[n])));
    }
  }

  lemma AddBoth<T>(a: multiset<T>, b: multiset<T>, c: multiset<T>, d: multiset<T>, e: multiset<T>)
    requires a + b == c + d
    ensures (a + e) + b == (c + e) + d
  {
    assert (a + e) + b == (a + b) + e == (c + d) + e == (c + e) + d;
  }

  predicate SystemKeeps(t: Table, s: System) {
    Keeps(t, s.shared, s.log)
    && (forall i :: 0 <= i < |s.threads| ==>
          ThreadKeeps(t, s.threads[i])
          && (s.threads[i].slices != [] ==> s.log != [])
          && (s.threads[i].phase == Finished ==> Exhausted(t, s.shared)))
    && Streams(s.threads) == multiset(RowsOfSlices(t, s.log))
  }

  lemma ExhaustedStays(t: Table, g: Shared, th: Thread)
    requires th.phase != Finished && Exhausted(t, g)
    ensures Turn(t, g, th).0 == g && Turn(t, g, th).1.slices == th.slices
  {
  }

  /** What a turn does to the shared state. */
  lemma TurnKeeps(t: Table, g: Shared, th: Thread, log: seq<Slice>)
    requires Keeps(t, g, log) && ThreadKeeps(t, th) && th.phase != Finished && (th.slices != [] ==> log != [])
    ensures var (g', th') := Turn(t, g, th);
            (if |th'.slices| > |th.slices| then
               Keeps(t, g', log + [th'.slices[|th'.slices| - 1]]) && Undispensed(t, g') < Undispensed(t, g)
             else g' == g)
            && (th'.phase == Finished ==> Exhausted(t, g'))
  {
    hide Keeps, Exhausted, Undispensed, RowsIn, Stream;
    TakeSliceKeeps(t, g, th, log);
  }

  /** Every turn of every thread keeps the whole invariant. */
  lemma StepKeeps(t: Table, s: System, i: nat)
    requires SystemKeeps(t, s) && CanTurn(s, i)
    ensures SystemKeeps(t, StepOf(t, s, i))
  {
    hide Turn, Keeps, ThreadKeeps, Exhausted, Stream, RowsOfSlices, Streams, SliceRows;
    var th, next := s.threads[i], StepOf(t, s, i);
    var (g', th') := Turn(t, s.shared, th);
    TurnKeeps(t, s.shared, th, s.log);
    TurnStreams(t, s.shared, th);
    StreamsUpdate(s.threads, i, th');
    if |th'.slices| > |th.slices| {
      var slice := th'.slices[|th'.slices| - 1];
      RowsOfSnoc(t, s.log, slice);
      assert multiset(Stream(th')) == multiset(Stream(th)) + multiset(SliceRows(t, slice));
      assert next.log == s.log + [slice];
      DropCommon(Streams(next.threads), Streams(s.threads), multiset(Stream(th)), multiset(SliceRows(t, slice)));
      forall j | 0 <= j < |s.threads| && j != i
        ensures next.threads[j].phase == Finished ==> Exhausted(t, g')
      {
        if next.threads[j].phase == Finished {
          ExhaustedStays(t, s.shared, th);
        }
      }
    } else {
      assert next.log == s.log;
      DropCommon(Streams(next.threads), Streams(s.threads), multiset(Stream(th)), multiset{});
    }
  }

  lemma DropCommon<T>(a: multiset<T>, b: multiset<T>, common: multiset<T>, extra: multiset<T>)
    requires a + common == b + (common + extra)
    ensures a == b + extra
  {
    assert a == a + common - common == b + (common + extra) - common == b + extra;
  }

  lemma {:induction false} InitialStreams(n: nat)
    ensures Streams(seq(n, _ => NEW_THREAD)) == multiset{}
  {
    if n > 0 {
      InitialStreams(n - 1);
      var all: seq<Thread> := seq(n, _ => NEW_THREAD);
      assert all[..n - 1] == seq(n - 1, _ => NEW_THREAD);
      assert Stream(all[n - 1]) == [];
    }
  }

  lemma InitialKeeps(t: Table, n: nat)
    requires WellFormed(t)
    ensures SystemKeeps(t, Initial(t, n))
  {
    hide Streams, ThreadKeeps, Keeps, WellFormed;
    InitialStreams(n);
    NewThreadKeeps(t);
    InitialShareKeeps(t);
  }

  lemma NewThreadKeeps(t: Table)
    ensures ThreadKeeps(t, NEW_THREAD)
  {
    assert Stream(NEW_THREAD) == [];
  }

  lemma InitialShareKeeps(t: Table)
    requires WellFormed(t)
    ensures Keeps(t, InitialOf(t), [])
  {
  }

  /** Every run keeps the invariant: any number of threads, any interleaving. */
  lemma {:induction false} RunKeeps(t: Table, n: nat, schedule: seq<nat>)
    requires WellFormed(t)
    ensures SystemKeeps(t, Exec(t, Initial(t, n), schedule))
  {
    hide SystemKeeps, Initial, StepOf, WellFormed;
    if schedule == [] {
      InitialKeeps(t, n);
    } else {
      var k := |schedule| - 1;
      RunKeeps(t, n, schedule[..k]);
      var before := Exec(t, Initial(t, n), schedule[..k]);
      if CanTurn(before, schedule[k]) {
        StepKeeps(t, before, schedule[k]);
      }
    }
  }

  // ----- what a finished run has returned

  function AllReturned(threads: seq<Thread>): multiset<Row> {
    if threads == [] then multiset{}
    else AllReturned(threads[..|threads| - 1]) + multiset(Concat(threads[|threads| - 1].chunks))
  }

  predicate AllFinished(s: System) {
    forall i :: 0 <= i < |s.threads| ==> s.threads[i].phase == Finished
  }

  lemma {:induction false} FinishedStreams(t: Table, threads: seq<Thread>)
    requires forall i :: 0 <= i < |threads| ==> ThreadKeeps(t, threads[i]) && threads[i].phase == Finished
    ensures Streams(threads) == AllReturned(threads)
  {
    if threads != [] {
      FinishedStreams(t, threads[..|threads| - 1]);
      var th := threads[|threads| - 1];
      assert Stream(th) == Concat(th.chunks);
    }
  }

  lemma AscendingRest(rows: seq<Row>)
    requires Ascending(rows) && rows != []
    ensures Ascending(rows[1..]) && forall i :: 0 <= i < |rows| - 1 ==> rows[0].id < rows[1..][i].id
  {
  }

  lemma {:induction false} RangesJoin(rows: seq<Row>, a: int, b: int, c: int)
    requires Ascending(rows) && a <= b <= c
    ensures RowsIn(rows, a, b - 1) + RowsIn(rows, b, c - 1) == RowsIn(rows, a, c - 1)
  {
    if rows == [] {
    } else {
      var rest := rows[1..];
      AscendingRest(rows);
      RangesJoin(rest, a, b, c);
      var low, high := RowsIn(rest, a, b - 1), RowsIn(rest, b, c - 1);
      if b <= rows[0].id {
        NoneBelow(rest, a, b - 1);
        assert [] + high == high;
        assert [] + ([rows[0]] + high) == [rows[0]] + high;
      } else {
        assert ([rows[0]] + low) + high == [rows[0]] + (low + high);
      }
    }
  }

  lemma {:induction false} NoneBelow(rows: seq<Row>, a: int, b: int)
    requires forall i :: 0 <= i < |rows| ==> b < rows[i].id
    ensures RowsIn(rows, a, b) == []
  {
    if rows != [] {
      NoneBelow(rows[1..], a, b);
    }
  }

  lemma {:induction false} AllWithin(rows: seq<Row>, a: int, b: int)
    requires forall i :: 0 <= i < |rows| ==> a <= rows[i].id <= b
    ensures RowsIn(rows, a, b) == rows
  {
    if rows != [] {
      AllWithin(rows[1..], a, b);
    }
  }

  /** Consecutive slices hold the rows of the range they make up. */
  lemma {:induction false} SlicesHoldRange(t: Table, log: seq<Slice>, first: nat, position: nat)
    requires WellFormed(t) && t.ids.Some? && Contiguous(log, first, position)
    ensures first <= position
    ensures RowsOfSlices(t, log) == RowsIn(t.rows, first, position - 1)
    decreases |log|
  {
    if log == [] {
      EmptyRange(t.rows, first);
    } else {
      var last := log[|log| - 1];
      SlicesHoldRange(t, log[..|log| - 1], first, last.start);
      RangesJoin(t.rows, first, last.start, position);
    }
  }

  lemma {:induction false} EmptyRange(rows: seq<Row>, a: int)
    ensures RowsIn(rows, a, a - 1) == []
  {
    if rows != [] {
      EmptyRange(rows[1..], a);
    }
  }

  /** A finished parallel run: between them the threads have returned, each exactly once, the rows
      before the position; it stands at the largest id or past it, so that at most the row with
      that id is missing, and it is missing exactly if the position did not pass it. */
  lemma FinishedRun(t: Table, n: nat, schedule: seq<nat>)
    requires WellFormed(t) && n > 0 && t.ids.Some?
    requires AllFinished(Exec(t, Initial(t, n), schedule))
    ensures var s := Exec(t, Initial(t, n), schedule);
            var max := t.ids.value.max;
            (s.shared.position == max || s.shared.position == max + 1)
            && AllReturned(s.threads) == multiset(RowsIn(t.rows, t.ids.value.min, s.shared.position - 1))
            && (s.shared.position == max + 1 ==> AllReturned(s.threads) == multiset(t.rows))
            && (s.shared.position == max ==> forall r :: r in AllReturned(s.threads) ==> r.id != max)
  {
    hide Exec, Initial, WellFormed, SystemKeeps, AllFinished, RowsOfSlices, RowsIn, AllReturned;
    var s := Exec(t, Initial(t, n), schedule);
    RunKeeps(t, n, schedule);
    SameThreads(t, n, schedule);
    FinishedFacts(t, s);
    ExhaustedRows(t, s.shared, s.log);
    IdsIn(t.rows, t.ids.value.min, s.shared.position - 1);
  }

  lemma {:induction false} IdsIn(rows: seq<Row>, a: int, b: int)
    ensures forall r :: r in RowsIn(rows, a, b) ==> a <= r.id <= b
  {
    if rows != [] {
      IdsIn(rows[1..], a, b);
    }
  }

  lemma FinishedFacts(t: Table, s: System)
    requires SystemKeeps(t, s) && AllFinished(s) && s.threads != []
    ensures Keeps(t, s.shared, s.log) && Exhausted(t, s.shared)
    ensures AllReturned(s.threads) == multiset(RowsOfSlices(t, s.log))
  {
    hide ThreadKeeps, Keeps, Exhausted, Streams, AllReturned, RowsOfSlices;
    assert s.threads[0].phase == Finished;
    FinishedStreams(t, s.threads);
  }

  lemma ExhaustedPosition(t: Table, g: Shared, log: seq<Slice>)
    requires t.ids.Some? && Keeps(t, g, log) && Exhausted(t, g)
    ensures g.position == t.ids.value.max || g.position == t.ids.value.max + 1
    ensures Contiguous(log, First(t.ids.value), g.position)
  {
    hide Contiguous, LongSlices;
  }

  /** What the slices of an exhausted dispenser hold. */
  lemma ExhaustedRows(t: Table, g: Shared, log: seq<Slice>)
    requires WellFormed(t) && t.ids.Some? && Keeps(t, g, log) && Exhausted(t, g)
    ensures g.position == t.ids.value.max || g.position == t.ids.value.max + 1
    ensures RowsOfSlices(t, log) == RowsIn(t.rows, t.ids.value.min, g.position - 1)
    ensures g.position == t.ids.value.max + 1 ==> RowsOfSlices(t, log) == t.rows
  {
    hide Keeps, Exhausted, Contiguous, RowsOfSlices, RowsIn;
    var ids := t.ids.value;
    ExhaustedPosition(t, g, log);
    SlicesHoldRange(t, log, First(ids), g.position);
    RangesJoin(t.rows, First(ids), ids.min, g.position);
    NoneBelow(t.rows, First(ids), ids.min - 1);
    assert [] + RowsIn(t.rows, ids.min, g.position - 1) == RowsIn(t.rows, ids.min, g.position - 1);
    if g.position == ids.max + 1 {
      AllWithin(t.rows, ids.min, ids.max);
    }
  }

  lemma {:induction false} SameThreads(t: Table, n: nat, schedule: seq<nat>)
    requires WellFormed(t)
    ensures |Exec(t, Initial(t, n), schedule).threads| == n
  {
    if schedule != [] {
      SameThreads(t, n, schedule[..|schedule| - 1]);
    }
  }

  /** A finished run without row ids: one thread has read the whole table, in order. */
  lemma FinishedWholeRun(t: Table, n: nat, schedule: seq<nat>)
    requires WellFormed(t) && n > 0 && t.ids.None?
    requires AllFinished(Exec(t, Initial(t, n), schedule))
    ensures AllReturned(Exec(t, Initial(t, n), schedule).threads) == multiset(t.rows)
  {
    hide Exec, Initial, WellFormed, SystemKeeps, AllFinished, AllReturned;
    var s := Exec(t, Initial(t, n), schedule);
    RunKeeps(t, n, schedule);
    SameThreads(t, n, schedule);
    FinishedFacts(t, s);
    assert s.log[..0] == [];
    assert RowsOfSlices(t, s.log) == [] + t.rows;
  }

  /** At any time of any run, a thread's chunks so far are a beginning of the rows of its slices in
      order; at its end they are all of them. No chunk is larger than a vector, and none but the
      last is empty. */
  lemma ThreadOrder(t: Table, n: nat, schedule: seq<nat>, i: nat)
    requires WellFormed(t) && i < n
    ensures var s := Exec(t, Initial(t, n), schedule);
            i < |s.threads|
            && Concat(s.threads[i].chunks) <= RowsOfSlices(t, s.threads[i].slices)
            && (s.threads[i].phase == Finished ==> Concat(s.threads[i].chunks) == RowsOfSlices(t, s.threads[i].slices))
            && ChunksFit(s.threads[i].chunks) && EmptyLast(s.threads[i].chunks, s.threads[i].phase == Finished)
  {
    hide Exec, Initial, Streams, Keeps;
    RunKeeps(t, n, schedule);
    SameThreads(t, n, schedule);
    var th := Exec(t, Initial(t, n), schedule).threads[i];
    assert Stream(th) == Concat(th.chunks) + (th.out + th.rest);
  }

  // ----- the row that may be missed

  /** Where the k-th group of the default size starts: groups are counted from the id before the
      smallest, if there is one. */
  function GroupStart(ids: RowIds, k: nat): nat {
    (if ids.min > 0 then ids.min - 1 else 0) + k * 122880
  }

  /** The rows of the k-th group of the default size. */
  function GroupRows(t: Table, k: nat): seq<Row>
    requires t.ids.Some?
  {
    var start := GroupStart(t.ids.value, k);
    RowsIn(t.rows, start, Min(t.ids.value.max, start + 122879))
  }

  /** No group of the default size is without rows. */
  ghost predicate Dense(t: Table) {
    t.ids.Some? && UsableIds(t.ids.value)
    && forall k: nat :: GroupStart(t.ids.value, k) <= t.ids.value.max ==> GroupRows(t, k) != []
  }

  /** No thread stands after a slice in which it found nothing. */
  predicate FoundRows(th: Thread) {
    |th.rest| + th.scanCount > 0
  }

  /** The dispenser after `k` slices of the default size. */
  predicate AfterGroups(t: Table, g: Shared, k: nat) {
    t.ids.Some? && g.rowsPerGroup == ROWS_PER_GROUP
    && g.position == PositionAfter(First(t.ids.value), t.ids.value.max, k)
  }

  predicate DefaultKeeps(t: Table, s: System) {
    AfterGroups(t, s.shared, |s.log|) && forall i :: 0 <= i < |s.threads| ==> FoundRows(s.threads[i])
  }

  /** What a grant does when the caller found rows before: the next default group, with rows in it. */
  lemma DefaultGrant(t: Table, g: Shared, th: Thread, log: seq<Slice>)
    requires Dense(t) && Keeps(t, g, log) && th.scanCount > 0 && AfterGroups(t, g, |log|)
    ensures var next := TakeSlice(t, g, th);
            next.granted ==> AfterGroups(t, next.shared, |log| + 1) && FoundRows(next.thread)
  {
    hide RowsIn, Contiguous, LongSlices;
    var ids := t.ids.value;
    if g.position < ids.max {
      DefaultNext(ids, g, log, th.scanCount, |log|);
      NothingWraps(ids, g, log, th.scanCount);
      PositionIs(First(ids), ids.max, |log|);
      assert GroupRows(t, |log|) != [];
    }
  }

  /** What a turn does to the count of groups. */
  predicate GroupsMove(t: Table, g: Shared, th: Thread, g': Shared, th': Thread, k: nat) {
    FoundRows(th') && AfterGroups(t, g', if |th'.slices| > |th.slices| then k + 1 else k)
  }

  lemma DefaultTurn(t: Table, g: Shared, th: Thread, log: seq<Slice>)
    requires Dense(t) && Keeps(t, g, log) && ThreadKeeps(t, th) && th.phase != Finished && FoundRows(th)
    requires AfterGroups(t, g, |log|)
    ensures GroupsMove(t, g, th, Turn(t, g, th).0, Turn(t, g, th).1, |log|)
  {
    hide RowsIn, Keeps, Dense, Stream, AfterGroups, DispenserKeeps, Next;
    if th.phase == New || (th.phase == Outer && th.done) {
      DefaultGrant(t, g, th, log);
      TakenSlices(t, g, th);
    }
  }

  lemma TakenSlices(t: Table, g: Shared, th: Thread)
    ensures var next := TakeSlice(t, g, th);
            if next.granted then |next.thread.slices| == |th.slices| + 1 else next.shared == g && next.thread == th
  {
  }

  lemma {:induction false} RunStaysDefault(t: Table, n: nat, schedule: seq<nat>)
    requires WellFormed(t) && Dense(t)
    ensures DefaultKeeps(t, Exec(t, Initial(t, n), schedule))
  {
    hide Turn, Keeps, ThreadKeeps, Streams, WellFormed, FoundRows, AfterGroups, GroupRows, StepOf;
    if schedule == [] {
      StartsDefault(t, n);
    } else {
      var k := |schedule| - 1;
      RunStaysDefault(t, n, schedule[..k]);
      RunKeeps(t, n, schedule[..k]);
      var before := Exec(t, Initial(t, n), schedule[..k]);
      var i := schedule[k];
      if CanTurn(before, i) {
        DefaultTurn(t, before.shared, before.threads[i], before.log);
        StepStaysDefault(t, before, i);
      }
    }
  }

  lemma StepStaysDefault(t: Table, s: System, i: nat)
    requires DefaultKeeps(t, s) && CanTurn(s, i)
    requires GroupsMove(t, s.shared, s.threads[i], Turn(t, s.shared, s.threads[i]).0, Turn(t, s.shared, s.threads[i]).1,
                        |s.log|)
    ensures DefaultKeeps(t, StepOf(t, s, i))
  {
    hide Turn, FoundRows, AfterGroups;
  }

  lemma StartsDefault(t: Table, n: nat)
    requires WellFormed(t) && t.ids.Some?
    ensures DefaultKeeps(t, Initial(t, n))
  {
  }

  /** The row with the largest id is missed by every finished run of any threads, in any interleaving,
      or by none: of a table with a row at its largest id and none of whose default groups is empty,
      all rows are returned if and only if the distance of that id from the first position is not a
      multiple of the group size. */
  lemma AllRowsReturnedIff(t: Table, n: nat, schedule: seq<nat>)
    requires WellFormed(t) && Dense(t) && n > 0
    requires exists r :: r in t.rows && r.id == t.ids.value.max
    requires AllFinished(Exec(t, Initial(t, n), schedule))
    ensures AllReturned(Exec(t, Initial(t, n), schedule).threads) == multiset(t.rows)
        <==> (if t.ids.value.min > 0 then (t.ids.value.max - t.ids.value.min + 1) % 122880 != 0
              else t.ids.value.max % 122880 != 0)
  {
    hide Exec, Initial, AllFinished, AllReturned, WellFormed, GroupRows, PositionAfter, FoundRows, RowsIn;
    var s := Exec(t, Initial(t, n), schedule);
    FinishedRun(t, n, schedule);
    RunStaysDefault(t, n, schedule);
    LastRowMissedIff(t.ids.value, |s.log|);
    LastRowTells(t.rows, AllReturned(s.threads), t.ids.value.max);
  }

  lemma LastRowTells(rows: seq<Row>, returned: multiset<Row>, max: int)
    requires exists r :: r in rows && r.id == max
    ensures (forall r :: r in returned ==> r.id != max) ==> returned != multiset(rows)
  {
    var r :| r in rows && r.id == max;
    assert r in multiset(rows);
  }

  /** Whatever its slices were, the dispenser stands a whole number of default groups from the first
      position until it has handed out the largest id. */
  predicate InGroups(t: Table, g: Shared) {
    t.ids.Some? && g.rowsPerGroup % ROWS_PER_GROUP == 0
    && (g.position <= t.ids.value.max ==> (g.position - First(t.ids.value)) % ROWS_PER_GROUP == 0)
  }

  lemma GrantInGroups(t: Table, g: Shared, th: Thread, log: seq<Slice>)
    requires Keeps(t, g, log) && InGroups(t, g) && (th.scanCount == 0 ==> log != [])
    ensures InGroups(t, TakeSlice(t, g, th).shared)
  {
    hide DispenserKeeps, Next;
    var ids := t.ids.value;
    FirstIsFirst(ids, g, log);
    if g.position < ids.max {
      NothingWraps(ids, g, log, th.scanCount);
      WholeGroups(First(ids), g.position, g.rowsPerGroup);
    } else {
      NothingLeft(g, th.scanCount, ids.max);
    }
  }

  lemma FirstIsFirst(ids: RowIds, g: Shared, log: seq<Slice>)
    requires DispenserKeeps(ids, g, log)
    ensures First(ids) <= g.position
  {
  }

  lemma WholeGroups(first: nat, position: nat, group: nat)
    requires first <= position && (position - first) % ROWS_PER_GROUP == 0 && group % ROWS_PER_GROUP == 0
    ensures (2 * group) % ROWS_PER_GROUP == 0
    ensures (position + group - first) % ROWS_PER_GROUP == 0 && (position + 2 * group - first) % ROWS_PER_GROUP == 0
  {
  }

  lemma NothingLeft(g: Shared, scanCount: nat, max: uint64)
    requires g.position >= max
    ensures Next(g, scanCount, max).Refused?
  {
  }

  lemma TurnInGroups(t: Table, g: Shared, th: Thread, log: seq<Slice>)
    requires Keeps(t, g, log) && ThreadKeeps(t, th) && th.phase != Finished && (th.slices != [] ==> log != [])
    requires InGroups(t, g)
    ensures InGroups(t, Turn(t, g, th).0)
  {
    hide Keeps, InGroups, Stream, TakeSlice;
    GrantInGroups(t, g, th, log);
  }

  lemma {:induction false} RunInGroups(t: Table, n: nat, schedule: seq<nat>)
    requires WellFormed(t) && t.ids.Some?
    ensures InGroups(t, Exec(t, Initial(t, n), schedule).shared)
  {
    hide Turn, Keeps, ThreadKeeps, Streams, WellFormed;
    if schedule == [] {
      StartsInGroups(t);
    } else {
      var k := |schedule| - 1;
      RunInGroups(t, n, schedule[..k]);
      RunKeeps(t, n, schedule[..k]);
      var before := Exec(t, Initial(t, n), schedule[..k]);
      if CanTurn(before, schedule[k]) {
        TurnInGroups(t, before.shared, before.threads[schedule[k]], before.log);
      }
    }
  }

  lemma StartsInGroups(t: Table)
    requires WellFormed(t) && t.ids.Some?
    ensures InGroups(t, InitialOf(t))
  {
  }

  /** Of any table, dense or not, every finished run returns all rows when the distance of the largest
      id from the first position is not a multiple of the group size. */
  lemma AllRowsReturned(t: Table, n: nat, schedule: seq<nat>)
    requires WellFormed(t) && t.ids.Some? && n > 0
    requires if t.ids.value.min > 0 then (t.ids.value.max - t.ids.value.min + 1) % 122880 != 0
             else t.ids.value.max % 122880 != 0
    requires AllFinished(Exec(t, Initial(t, n), schedule))
    ensures AllReturned(Exec(t, Initial(t, n), schedule).threads) == multiset(t.rows)
  {
    hide Exec, Initial, AllFinished, AllReturned, WellFormed, RowsIn;
    FinishedRun(t, n, schedule);
    RunInGroups(t, n, schedule);
  }

  // ----- every run ends

  /** How far a thread is from its end while no slice is granted and no row read. */
  function Distance(th: Thread): nat {
    match th.phase
    case Finished => 0
    case New => 3
    case Idle => if th.done then 2 else 5
    case Outer => if th.done then 1 else 4
    case Inner => if |th.out| == STANDARD_VECTOR_SIZE then 6 else 3
  }

  function RestSum(threads: seq<Thread>): nat {
    if threads == [] then 0 else RestSum(threads[..|threads| - 1]) + |threads[|threads| - 1].rest|
  }

  function DistanceSum(threads: seq<Thread>): nat {
    if threads == [] then 0 else DistanceSum(threads[..|threads| - 1]) + Distance(threads[|threads| - 1])
  }

  lemma {:induction false} SumsUpdate(threads: seq<Thread>, i: nat, th: Thread)
    requires i < |threads|
    ensures RestSum(threads[i := th]) - |th.rest| == RestSum(threads) - |threads[i].rest|
    ensures DistanceSum(threads[i := th]) - Distance(th) == DistanceSum(threads) - Distance(threads[i])
    decreases |threads|
  {
    hide Distance;
    var n := |threads| - 1;
    if i == n {
      assert threads[i := th][..n] == threads[..n];
    } else {
      SumsUpdate(threads[..n], i, th);
      assert threads[i := th][..n] == threads[..n][i := th];
    }
  }

  /** A turn uses up an id, or reads a row, or brings its thread closer to its end. */
  lemma TurnDecreases(t: Table, g: Shared, th: Thread, log: seq<Slice>)
    requires Keeps(t, g, log) && ThreadKeeps(t, th) && th.phase != Finished && (th.slices != [] ==> log != [])
    ensures var (g', th') := Turn(t, g, th);
            Undispensed(t, g') < Undispensed(t, g)
            || (g' == g && |th'.rest| < |th.rest|)
            || (g' == g && |th'.rest| == |th.rest| && Distance(th') < Distance(th))
  {
    hide Keeps, Exhausted, Undispensed, RowsIn, Stream;
    TakeSliceKeeps(t, g, th, log);
  }

  /** Whoever takes the turn, the ids not handed out, the rows left in the slices and the distance
      from the ends decrease lexicographically: every run is finite. */
  lemma StepDecreases(t: Table, s: System, i: nat)
    requires SystemKeeps(t, s) && CanTurn(s, i)
    ensures var s' := StepOf(t, s, i);
            Undispensed(t, s'.shared) < Undispensed(t, s.shared)
            || (s'.shared == s.shared
                && (RestSum(s'.threads) < RestSum(s.threads)
                    || (RestSum(s'.threads) == RestSum(s.threads) && DistanceSum(s'.threads) < DistanceSum(s.threads))))
  {
    hide Turn, Keeps, ThreadKeeps, Distance, Undispensed, Streams, RestSum, DistanceSum;
    TurnDecreases(t, s.shared, s.threads[i], s.log);
    SumsUpdate(s.threads, i, Turn(t, s.shared, s.threads[i]).1);
  }

  /** Any scheduler that lets some thread with turns left go on reaches the end. */
  method RunToEnd(t: Table, n: nat) returns (s: System, ghost schedule: seq<nat>)
    requires WellFormed(t)
    ensures s == Exec(t, Initial(t, n), schedule) && AllFinished(s)
  {
    hide SystemKeeps, StepOf, Initial, Undispensed, RestSum, DistanceSum, WellFormed;
    s, schedule := Initial(t, n), [];
    while exists i :: 0 <= i < |s.threads| && CanTurn(s, i)
      invariant s == Exec(t, Initial(t, n), schedule)
      decreases Undispensed(t, s.shared), RestSum(s.threads), DistanceSum(s.threads)
    {
      var i :| 0 <= i < |s.threads| && CanTurn(s, i);
      RunKeeps(t, n, schedule);
      StepDecreases(t, s, i);
      assert (schedule + [i])[..|schedule|] == schedule;
      s, schedule := StepOf(t, s, i), schedule + [i];
    }
    forall i | 0 <= i < |s.threads|
      ensures s.threads[i].phase == Finished
    {
      assert !CanTurn(s, i);
    }
  }
}
