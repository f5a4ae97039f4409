/** The column segment file (IDF): the generated parser and its inverse. */
module Idf {
  import opened Machine

  datatype Entry = Entry(dataValue: uint32, repeatValue: uint32)

  /** The two size fields are kept as read: the loops count to their `int` conversions. */
  datatype Segment = Segment(primarySize: uint64, primary: seq<Entry>, subSize: uint64, sub: seq<uint64>)

  /** How often a loop bounded by `const int l = size` runs. */
  function LoopCount(size: uint64): nat {
    var l := ToInt32(size);
    if l < 0 then 0 else l
  }

  // ----- the parser as a function of the bytes that remain

  datatype Parsed<+T> = Parsed(value: T, rest: seq<byte>)

  function TakeU4(d: seq<byte>): Result<Parsed<uint32>> {
    if |d| < 4 then Threw else (LeWidth(d[..4]); Returned(Parsed(LeValue(d[..4]), d[4..])))
  }

  function TakeU8(d: seq<byte>): (r: Result<Parsed<uint64>>)
    ensures r.Returned? ==> |r.value.rest| + 8 == |d|
  {
    if |d| < 8 then Threw else (LeWidth(d[..8]); Returned(Parsed(LeValue(d[..8]), d[8..])))
  }

  function TakeEntry(d: seq<byte>): Result<Parsed<Entry>> {
    match TakeU4(d)
    case Threw => Threw
    case Returned(a) =>
      match TakeU4(a.rest)
      case Threw => Threw
      case Returned(b) => Returned(Parsed(Entry(a.value, b.value), b.rest))
  }

  function Cons<T>(x: T, r: Result<Parsed<seq<T>>>): Result<Parsed<seq<T>>> {
    match r
    case Threw => Threw
    case Returned(p) => Returned(Parsed([x] + p.value, p.rest))
  }

  function TakeEntries(d: seq<byte>, n: nat): (r: Result<Parsed<seq<Entry>>>)
    ensures r.Returned? ==> |r.value.rest| <= |d| && |r.value.value| == n
  {
    if n == 0 then Returned(Parsed([], d))
    else match TakeEntry(d)
      case Threw => Threw
      case Returned(e) => Cons(e.value, TakeEntries(e.rest, n - 1))
  }

  function TakeWords(d: seq<byte>, n: nat): (r: Result<Parsed<seq<uint64>>>)
    ensures r.Returned? ==> |r.value.rest| <= |d| && |r.value.value| == n
  {
    if n == 0 then Returned(Parsed([], d))
    else match TakeU8(d)
      case Threw => Threw
      case Returned(w) => Cons(w.value, TakeWords(w.rest, n - 1))
  }

  function TakeSegment(d: seq<byte>): (r: Result<Parsed<Segment>>)
    ensures r.Returned? ==> |r.value.rest| + 16 <= |d|
  {
    match TakeU8(d)
    case Threw => Threw
    case Returned(n) =>
      match TakeEntries(n.rest, LoopCount(n.value))
      case Threw => Threw
      case Returned(p) =>
        match TakeU8(p.rest)
        case Threw => Threw
        case Returned(m) =>
          match TakeWords(m.rest, LoopCount(m.value))
          case Threw => Threw
          case Returned(s) => Returned(Parsed(Segment(n.value, p.value, m.value, s.value), s.rest))
  }

  /** Segments to the end of the stream. */
  function ParseAll(d: seq<byte>): Result<seq<Segment>>
    decreases |d|
  {
    if d == [] then Returned([])
    else match TakeSegment(d)
      case Threw => Threw
      case Returned(s) =>
        match ParseAll(s.rest)
        case Threw => Threw
        case Returned(more) => Returned([s.value] + more)
  }

  // ----- the parser as the generated classes run it

  class KStream {
    const data: seq<byte>
    var pos: nat

    constructor (d: seq<byte>)
      ensures data == d && pos == 0
    {
      data, pos := d, 0;
    }

    ghost predicate Valid()
      reads this
    {
      pos <= |data|
    }

    ghost function Rest(): seq<byte>
      reads this
      requires Valid()
    {
      data[pos..]
    }

    method ReadU4Le() returns (r: Result<uint32>)
      requires Valid()
      modifies this`pos
      ensures Valid()
      ensures match TakeU4(old(Rest()))
              case Threw => r == Threw
              case Returned(p) => r == Returned(p.value) && Rest() == p.rest
    {
      if |data| - pos < 4 {
        return Threw;
      }
      LeWidth(data[pos..pos + 4]);
      assert data[pos..][..4] == data[pos..pos + 4];
      r := Returned(LeValue(data[pos..pos + 4]));
      pos := pos + 4;
    }

    method ReadU8Le() returns (r: Result<uint64>)
      requires Valid()
      modifies this`pos
      ensures Valid()
      ensures match TakeU8(old(Rest()))
              case Threw => r == Threw
              case Returned(p) => r == Returned(p.value) && Rest() == p.rest
    {
      if |data| - pos < 8 {
        return Threw;
      }
      LeWidth(data[pos..pos + 8]);
      assert data[pos..][..8] == data[pos..pos + 8];
      r := Returned(LeValue(data[pos..pos + 8]));
      pos := pos + 8;
    }

    method ReadEntry() returns (r: Result<Entry>)
      requires Valid()
      modifies this`pos
      ensures Valid()
      ensures match TakeEntry(old(Rest()))
              case Threw => r == Threw
              case Returned(p) => r == Returned(p.value) && Rest() == p.rest
    {
      var dataValue := ReadU4Le();
      if dataValue.Threw? {
        return Threw;
      }
      var repeatValue := ReadU4Le();
      if repeatValue.Threw? {
        return Threw;
      }
      r := Returned(Entry(dataValue.value, repeatValue.value));
    }

    /** The first loop of `segment_t::_read`. */
    method ReadEntries(l: nat) returns (r: Result<seq<Entry>>)
      requires Valid()
      modifies this`pos
      ensures Valid()
      ensures match TakeEntries(old(Rest()), l)
              case Threw => r == Threw
              case Returned(p) => r == Returned(p.value) && Rest() == p.rest
    {
      var read: seq<Entry> := [];
      JoinNothing(TakeEntries(Rest(), l));
      for i := 0 to l
        invariant Valid()
        invariant TakeEntries(old(Rest()), l) == Join(read, TakeEntries(Rest(), l - i))
      {
        ghost var before := Rest();
        var e := ReadEntry();
        if e.Threw? {
          return Threw;
        }
        JoinCons(read, e.value, TakeEntries(Rest(), l - i - 1));
        read := read + [e.value];
      }
      assert read + [] == read;
      r := Returned(read);
    }

    /** The second loop of `segment_t::_read`. */
    method ReadWords(l: nat) returns (r: Result<seq<uint64>>)
      requires Valid()
      modifies this`pos
      ensures Valid()
      ensures match TakeWords(old(Rest()), l)
              case Threw => r == Threw
              case Returned(p) => r == Returned(p.value) && Rest() == p.rest
    {
      var read: seq<uint64> := [];
      JoinNothing(TakeWords(Rest(), l));
      for i := 0 to l
        invariant Valid()
        invariant TakeWords(old(Rest()), l) == Join(read, TakeWords(Rest(), l - i))
      {
        var w := ReadU8Le();
        if w.Threw? {
          return Threw;
        }
        JoinCons(read, w.value, TakeWords(Rest(), l - i - 1));
        read := read + [w.value];
      }
      assert read + [] == read;
      r := Returned(read);
    }

    method ReadSegment() returns (r: Result<Segment>)
      requires Valid()
      modifies this`pos
      ensures Valid()
      ensures match TakeSegment(old(Rest()))
              case Threw => r == Threw
              case Returned(p) => r == Returned(p.value) && Rest() == p.rest
    {
      var primarySize := ReadU8Le();
      if primarySize.Threw? {
        return Threw;
      }
      var primary := ReadEntries(LoopCount(primarySize.value));
      if primary.Threw? {
        return Threw;
      }
      var subSize := ReadU8Le();
      if subSize.Threw? {
        return Threw;
      }
      var sub := ReadWords(LoopCount(subSize.value));
      if sub.Threw? {
        return Threw;
      }
      r := Returned(Segment(primarySize.value, primary.value, subSize.value, sub.value));
    }

    /** `column_data_idf_t::_read`: to the end of the stream, at least 16 bytes a segment. */
    method ReadAll() returns (r: Result<seq<Segment>>)
      requires Valid()
      modifies this`pos
      ensures r == ParseAll(old(Rest()))
    {
      var segments: seq<Segment> := [];
      MoreNothing(ParseAll(Rest()));
      while pos != |data|
        invariant Valid()
        invariant ParseAll(old(Rest())) == More(segments, ParseAll(Rest()))
        decreases |data| - pos
      {
        ghost var before := Rest();
        var s := ReadSegment();
        if s.Threw? {
          return Threw;
        }
        assert |Rest()| < |before|;
        MoreCons(segments, s.value, ParseAll(Rest()));
        segments := segments + [s.value];
      }
      assert segments + [] == segments;
      r := Returned(segments);
    }
  }

  function Join<T>(read: seq<T>, r: Result<Parsed<seq<T>>>): Result<Parsed<seq<T>>> {
    match r
    case Threw => Threw
    case Returned(p) => Returned(Parsed(read + p.value, p.rest))
  }

  lemma JoinNothing<T>(r: Result<Parsed<seq<T>>>)
    ensures Join([], r) == r
  {
    if r.Returned? {
      assert [] + r.value.value == r.value.value;
    }
  }

  lemma JoinCons<T>(read: seq<T>, x: T, r: Result<Parsed<seq<T>>>)
    ensures Join(read, Cons(x, r)) == Join(read + [x], r)
  {
    if r.Returned? {
      assert read + ([x] + r.value.value) == read + [x] + r.value.value;
    }
  }

  function More(read: seq<Segment>, r: Result<seq<Segment>>): Result<seq<Segment>> {
    match r
    case Threw => Threw
    case Returned(more) => Returned(read + more)
  }

  lemma MoreNothing(r: Result<seq<Segment>>)
    ensures More([], r) == r
  {
    if r.Returned? {
      assert [] + r.value == r.value;
    }
  }

  lemma MoreCons(read: seq<Segment>, s: Segment, r: Result<seq<Segment>>)
    ensures More(read, More([s], r)) == More(read + [s], r)
  {
    if r.Returned? {
      assert read + ([s] + r.value) == read + [s] + r.value;
    }
  }

  // ----- the writer

  function EntryBytes(e: Entry): (r: seq<byte>)
    ensures |r| == 8
  {
    LeBytes(e.dataValue, 4) + LeBytes(e.repeatValue, 4)
  }

  function EntriesBytes(es: seq<Entry>): seq<byte> {
    if es == [] then [] else EntryBytes(es[0]) + EntriesBytes(es[1..])
  }

  function WordsBytes(ws: seq<uint64>): seq<byte> {
    if ws == [] then [] else LeBytes(ws[0], 8) + WordsBytes(ws[1..])
  }

  function SegmentBytes(s: Segment): seq<byte> {
    LeBytes(s.primarySize, 8) + EntriesBytes(s.primary) + LeBytes(s.subSize, 8) + WordsBytes(s.sub)
  }

  function Serialise(ss: seq<Segment>): seq<byte> {
    if ss == [] then [] else SegmentBytes(ss[0]) + Serialise(ss[1..])
  }

  /** A segment whose size fields say how many elements it has. */
  predicate Sized(s: Segment) {
    s.primarySize == |s.primary| && s.subSize == |s.sub|
  }

  /** ... as the parser counts them. */
  predicate Counted(s: Segment) {
    LoopCount(s.primarySize) == |s.primary| && LoopCount(s.subSize) == |s.sub|
  }

  lemma TakeU4Written(x: uint32, tail: seq<byte>)
    ensures TakeU4(LeBytes(x, 4) + tail) == Returned(Parsed(x, tail))
  {
    Le32(x);
    assert (LeBytes(x, 4) + tail)[..4] == LeBytes(x, 4) && (LeBytes(x, 4) + tail)[4..] == tail;
  }

  lemma TakeU8Written(x: uint64, tail: seq<byte>)
    ensures TakeU8(LeBytes(x, 8) + tail) == Returned(Parsed(x, tail))
  {
    Le64(x);
    assert (LeBytes(x, 8) + tail)[..8] == LeBytes(x, 8) && (LeBytes(x, 8) + tail)[8..] == tail;
  }

  lemma TakeEntryWritten(e: Entry, tail: seq<byte>)
    ensures TakeEntry(EntryBytes(e) + tail) == Returned(Parsed(e, tail))
  {
    hide TakeU4;
    TakeU4Written(e.dataValue, LeBytes(e.repeatValue, 4) + tail);
    TakeU4Written(e.repeatValue, tail);
    assert EntryBytes(e) + tail == LeBytes(e.dataValue, 4) + (LeBytes(e.repeatValue, 4) + tail);
  }

  lemma {:induction false} TakeEntriesWritten(es: seq<Entry>, tail: seq<byte>)
    ensures TakeEntries(EntriesBytes(es) + tail, |es|) == Returned(Parsed(es, tail))
  {
    hide TakeEntry, EntryBytes;
    if es == [] {
      assert EntriesBytes(es) + tail == tail;
    } else {
      TakeEntryWritten(es[0], EntriesBytes(es[1..]) + tail);
      TakeEntriesWritten(es[1..], tail);
      assert EntriesBytes(es) + tail == EntryBytes(es[0]) + (EntriesBytes(es[1..]) + tail);
      assert [es[0]] + es[1..] == es;
    }
  }

  lemma {:induction false} TakeWordsWritten(ws: seq<uint64>, tail: seq<byte>)
    ensures TakeWords(WordsBytes(ws) + tail, |ws|) == Returned(Parsed(ws, tail))
  {
    hide TakeU8, LeBytes;
    if ws == [] {
      assert WordsBytes(ws) + tail == tail;
    } else {
      TakeU8Written(ws[0], WordsBytes(ws[1..]) + tail);
      TakeWordsWritten(ws[1..], tail);
      assert WordsBytes(ws) + tail == LeBytes(ws[0], 8) + (WordsBytes(ws[1..]) + tail);
      assert [ws[0]] + ws[1..] == ws;
    }
  }

  lemma TakeSegmentWritten(s: Segment, tail: seq<byte>)
    requires Counted(s)
    ensures TakeSegment(SegmentBytes(s) + tail) == Returned(Parsed(s, tail))
  {
    hide TakeU8, LeBytes, TakeEntries, TakeWords;
    var d3 := WordsBytes(s.sub) + tail;
    var d2 := LeBytes(s.subSize, 8) + d3;
    var d1 := EntriesBytes(s.primary) + d2;
    TakeU8Written(s.primarySize, d1);
    TakeEntriesWritten(s.primary, d2);
    TakeU8Written(s.subSize, d3);
    TakeWordsWritten(s.sub, tail);
    assert SegmentBytes(s) + tail == LeBytes(s.primarySize, 8) + d1;
  }

  lemma {:induction false} ParseWritten(ss: seq<Segment>)
    requires forall i :: 0 <= i < |ss| ==> Counted(ss[i])
    ensures ParseAll(Serialise(ss)) == Returned(ss)
  {
    hide TakeSegment, SegmentBytes;
    if ss == [] {
    } else {
      TakeSegmentWritten(ss[0], Serialise(ss[1..]));
      ParseWritten(ss[1..]);
      assert [ss[0]] + ss[1..] == ss;
    }
  }

  // ----- what was parsed is what was there

  lemma TakenU4(d: seq<byte>)
    requires TakeU4(d).Returned?
    ensures d == LeBytes(TakeU4(d).value.value, 4) + TakeU4(d).value.rest
  {
    LeWritten(d[..4]);
  }

  lemma TakenU8(d: seq<byte>)
    requires TakeU8(d).Returned?
    ensures d == LeBytes(TakeU8(d).value.value, 8) + TakeU8(d).value.rest
  {
    LeWritten(d[..8]);
  }

  lemma TakenEntry(d: seq<byte>)
    requires TakeEntry(d).Returned?
    ensures d == EntryBytes(TakeEntry(d).value.value) + TakeEntry(d).value.rest
  {
    hide TakeU4;
    TakenU4(d);
    TakenU4(TakeU4(d).value.rest);
  }

  lemma {:induction false} TakenEntries(d: seq<byte>, n: nat)
    requires TakeEntries(d, n).Returned?
    ensures d == EntriesBytes(TakeEntries(d, n).value.value) + TakeEntries(d, n).value.rest
    decreases n
  {
    hide TakeEntry, EntryBytes;
    if n == 0 {
      assert d == [] + d;
    } else {
      var e := TakeEntry(d).value;
      var es := TakeEntries(e.rest, n - 1).value.value;
      TakenEntry(d);
      TakenEntries(e.rest, n - 1);
      assert ([e.value] + es)[1..] == es;
    }
  }

  lemma {:induction false} TakenWords(d: seq<byte>, n: nat)
    requires TakeWords(d, n).Returned?
    ensures d == WordsBytes(TakeWords(d, n).value.value) + TakeWords(d, n).value.rest
    decreases n
  {
    hide TakeU8, LeBytes;
    if n == 0 {
      assert d == [] + d;
    } else {
      var w := TakeU8(d).value;
      var ws := TakeWords(w.rest, n - 1).value.value;
      TakenU8(d);
      TakenWords(w.rest, n - 1);
      assert ([w.value] + ws)[1..] == ws;
    }
  }

  lemma TakenSegment(d: seq<byte>)
    requires TakeSegment(d).Returned?
    ensures d == SegmentBytes(TakeSegment(d).value.value) + TakeSegment(d).value.rest
    ensures Counted(TakeSegment(d).value.value)
  {
    hide TakeU8, TakeEntries, TakeWords, LeBytes, EntriesBytes, WordsBytes;
    var n := TakeU8(d).value;
    var p := TakeEntries(n.rest, LoopCount(n.value)).value;
    var m := TakeU8(p.rest).value;
    TakenU8(d);
    TakenEntries(n.rest, LoopCount(n.value));
    TakenU8(p.rest);
    TakenWords(m.rest, LoopCount(m.value));
  }

  lemma {:induction false} ParsedBytes(d: seq<byte>)
    requires ParseAll(d).Returned?
    ensures d == Serialise(ParseAll(d).value)
    ensures forall i :: 0 <= i < |ParseAll(d).value| ==> Counted(ParseAll(d).value[i])
    decreases |d|
  {
    hide TakeSegment, SegmentBytes, Counted;
    if d == [] {
    } else {
      var s := TakeSegment(d).value;
      var more := ParseAll(s.rest).value;
      TakenSegment(d);
      ParsedBytes(s.rest);
      assert ([s.value] + more)[1..] == more;
    }
  }

  /** The parser accepts exactly the writings of segments it counts right, and gives them back;
      no byte is left over. */
  lemma ParsesIff(d: seq<byte>, ss: seq<Segment>)
    ensures ParseAll(d) == Returned(ss)
        <==> d == Serialise(ss) && forall i :: 0 <= i < |ss| ==> Counted(ss[i])
  {
    hide ParseAll, Serialise, Counted;
    if ParseAll(d) == Returned(ss) {
      ParsedBytes(d);
    }
    if d == Serialise(ss) && forall i :: 0 <= i < |ss| ==> Counted(ss[i]) {
      ParseWritten(ss);
    }
  }

  predicate Countable(s: Segment) {
    |s.primary| < 0x8000_0000 && |s.sub| < 0x8000_0000
  }

  lemma SizedCounted(s: Segment)
    requires Sized(s)
    ensures Counted(s) <==> Countable(s)
  {
  }

  /** Size fields whose low 32 bits are negative as an `int` start no loop: a segment with such fields
      and no elements is read as it is. */
  lemma NegativeCounts(primarySize: uint64, subSize: uint64)
    requires primarySize % 0x1_0000_0000 >= 0x8000_0000 && subSize % 0x1_0000_0000 >= 0x8000_0000
    ensures var s := Segment(primarySize, [], subSize, []); ParseAll(Serialise([s])) == Returned([s])
  {
    hide ParseAll, Serialise;
    ParseWritten([Segment(primarySize, [], subSize, [])]);
  }

  /** A written segment list is read back exactly when every count fits the `int` that bounds
      the loops. */
  lemma IdfRoundTrip(ss: seq<Segment>)
    requires forall i :: 0 <= i < |ss| ==> Sized(ss[i])
    ensures ParseAll(Serialise(ss)) == Returned(ss) <==> forall i :: 0 <= i < |ss| ==> Countable(ss[i])
  {
    hide ParseAll, Serialise, Counted, Countable;
    ParsesIff(Serialise(ss), ss);
    forall i | 0 <= i < |ss|
      ensures Counted(ss[i]) <==> Countable(ss[i])
    {
      SizedCounted(ss[i]);
    }
  }
}
