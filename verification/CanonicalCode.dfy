/** Canonical code assignment: `generate_codes` of the Huffman decoder, against the
    construction of section 3.2.2 of RFC 1951 and the Kraft inequality.

    A code word is a sequence of bits, the first bit the most significant; `true` is '1'. */
module CanonicalCode {
  import opened Machine

  /** 256 code word lengths. Each is a nibble of the stored table, so at most 15; 0 is "no code". */
  type LengthTable = t: seq<nat> | |t| == 256 && forall i :: 0 <= i < 256 ==> t[i] <= 15
    witness seq(256, _ => 0)

  type CodeMap = map<byte, seq<bool>>

  datatype SymbolLength = SymbolLength(length: nat, symbol: byte)

  /** The comparator given to the sort: by length, then by symbol. */
  predicate Precedes(a: SymbolLength, b: SymbolLength) {
    if a.length != b.length then a.length < b.length else a.symbol < b.symbol
  }

  /** The symbols below `n` that have a code, in symbol order. */
  function Used(t: LengthTable, n: nat): (s: seq<SymbolLength>)
    requires n <= 256
    ensures Short(s)
  {
    if n == 0 then []
    else if t[n - 1] != 0 then Used(t, n - 1) + [SymbolLength(t[n - 1], n - 1)]
    else Used(t, n - 1)
  }

  lemma {:induction false} UsedEntries(t: LengthTable, n: nat, e: SymbolLength)
    requires n <= 256
    ensures e in Used(t, n) <==> e.symbol < n && t[e.symbol] != 0 && e.length == t[e.symbol]
  {
    if n == 0 {
    } else {
      UsedEntries(t, n - 1, e);
    }
  }

  predicate Sorted(s: seq<SymbolLength>) {
    forall i, j :: 0 <= i < j < |s| ==> Precedes(s[i], s[j])
  }

  // ----- weights: a word of length n stands for 2^(15-n) of the 2^15 leaves at depth 15

  function Weight(e: SymbolLength): (w: nat)
    requires e.length <= 15
  {
    Pow2(15 - e.length)
  }

  predicate Short(s: seq<SymbolLength>) {
    forall i :: 0 <= i < |s| ==> s[i].length <= 15
  }

  /** The Kraft sum of the entries, in units of 2^-15. */
  function Kraft(s: seq<SymbolLength>): nat
    requires Short(s)
  {
    if s == [] then 0 else Kraft(s[..|s| - 1]) + Weight(s[|s| - 1])
  }

  /** The Kraft sum of the entries that come before `e`. */
  function Below(s: seq<SymbolLength>, e: SymbolLength): nat
    requires Short(s)
  {
    if s == [] then 0
    else Below(s[..|s| - 1], e) + if Precedes(s[|s| - 1], e) then Weight(s[|s| - 1]) else 0
  }

  function TableKraft(t: LengthTable): nat {
    Kraft(Used(t, |t|))
  }

  /** The condition a caller can check: the Kraft sum does not exceed one. */
  predicate KraftHolds(t: LengthTable) {
    TableKraft(t) <= Pow2(15)
  }

  // ----- the reference: section 3.2.2 of RFC 1951

  /** How many symbols below `n` have words of length `len`. */
  function Count(t: LengthTable, len: nat, n: nat): nat
    requires n <= 256
  {
    if n == 0 then 0 else Count(t, len, n - 1) + if t[n - 1] == len then 1 else 0
  }

  /** The smallest code of length `len`: step 2 of the section. */
  function FirstCode(t: LengthTable, len: nat): nat {
    if len == 0 then 0
    else 2 * (FirstCode(t, len - 1) + if len == 1 then 0 else Count(t, len - 1, |t|))
  }

  /** The code of a symbol: step 3 of the section. */
  function Rfc1951Code(t: LengthTable, symbol: byte): nat {
    FirstCode(t, t[symbol]) + Count(t, t[symbol], symbol)
  }

  // ----- bits

  function LowBits(v: nat, n: nat): (bits: seq<bool>)
    ensures |bits| == n
  {
    if n == 0 then [] else LowBits(v / 2, n - 1) + [v % 2 == 1]
  }

  function BitsValue(bits: seq<bool>): nat {
    if bits == [] then 0 else 2 * BitsValue(bits[..|bits| - 1]) + if bits[|bits| - 1] then 1 else 0
  }

  lemma {:induction false} LowBitsValue(v: nat, n: nat)
    ensures BitsValue(LowBits(v, n)) == v % Pow2(n)
  {
    if n == 0 {
    } else {
      LowBitsValue(v / 2, n - 1);
      var bits := LowBits(v, n);
      assert bits[..n - 1] == LowBits(v / 2, n - 1);
      HalfMod(v, Pow2(n - 1));
    }
  }

  lemma HalfMod(v: nat, m: nat)
    requires m > 0
    ensures v % (2 * m) == 2 * (v / 2 % m) + v % 2
  {
    var q := v / 2 / m;
    assert v / 2 == q * m + v / 2 % m;
    assert v == 2 * (v / 2) + v % 2 == (2 * m) * q + (2 * (v / 2 % m) + v % 2);
    ModUnique(v, 2 * m, q, 2 * (v / 2 % m) + v % 2);
  }

  /** The last `n` of the fifteen digits are the low `n` bits. */
  lemma {:induction false} LowBitsSuffix(v: nat, n: nat, all: nat)
    requires n <= all
    ensures LowBits(v, all)[all - n..] == LowBits(v, n)
  {
    if n == 0 {
    } else {
      LowBitsSuffix(v / 2, n - 1, all - 1);
      var front := LowBits(v / 2, all - 1);
      assert (front + [v % 2 == 1])[all - n..] == front[all - n..] + [v % 2 == 1];
    }
  }

  // ----- what sorting keeps

  lemma BelowSnoc(s: seq<SymbolLength>, x: SymbolLength, e: SymbolLength)
    requires Short(s) && x.length <= 15
    ensures Short(s + [x])
    ensures Below(s + [x], e) == Below(s, e) + if Precedes(x, e) then Weight(x) else 0
  {
    assert (s + [x])[..|s|] == s;
  }

  lemma {:induction false} WeightsSplit(a: seq<SymbolLength>, b: seq<SymbolLength>, e: SymbolLength)
    requires Short(a) && Short(b)
    ensures Short(a + b)
    ensures Kraft(a + b) == Kraft(a) + Kraft(b)
    ensures Below(a + b, e) == Below(a, e) + Below(b, e)
  {
    if b == [] {
      assert a + b == a;
    } else {
      var c := b[..|b| - 1];
      WeightsSplit(a, c, e);
      assert (a + b)[..|a + b| - 1] == a + c;
      assert (a + b)[|a + b| - 1] == b[|b| - 1];
    }
  }

  lemma WeightsMiddle(b1: seq<SymbolLength>, x: SymbolLength, b2: seq<SymbolLength>, e: SymbolLength)
    requires Short(b1 + [x] + b2)
    ensures Short(b1 + b2) && x.length <= 15
    ensures Kraft(b1 + [x] + b2) == Kraft(b1 + b2) + Weight(x)
    ensures Below(b1 + [x] + b2, e) == Below(b1 + b2, e) + if Precedes(x, e) then Weight(x) else 0
  {
    var all := b1 + [x] + b2;
    assert all[|b1|] == x;
    assert forall i :: 0 <= i < |b1| ==> b1[i] == all[i];
    assert forall i :: 0 <= i < |b2| ==> b2[i] == all[|b1| + 1 + i];
    WeightsSplit(b1, b2, e);
    WeightsSplit(b1 + [x], b2, e);
    BelowSnoc(b1, x, e);
  }

  lemma DropOne<T>(m: multiset<T>, n: multiset<T>, x: T)
    requires m + multiset{x} == n + multiset{x}
    ensures m == n
  {
    assert m == m + multiset{x} - multiset{x} == n + multiset{x} - multiset{x} == n;
  }

  lemma MultisetSplit<T>(a: seq<T>, b: seq<T>) returns (b1: seq<T>, b2: seq<T>)
    requires a != [] && multiset(a) == multiset(b)
    ensures b == b1 + [a[|a| - 1]] + b2
    ensures multiset(a[..|a| - 1]) == multiset(b1 + b2)
  {
    var last := a[|a| - 1];
    assert last in multiset(a);
    var k :| 0 <= k < |b| && b[k] == last;
    b1, b2 := b[..k], b[k + 1..];
    assert a == a[..|a| - 1] + [last];
    assert b == b1 + [last] + b2;
    assert multiset(b) == multiset(b1 + [last]) + multiset(b2);
    DropOne(multiset(a[..|a| - 1]), multiset(b1 + b2), last);
  }

  /** Rearranging entries changes neither sum. */
  lemma {:induction false} WeightsPermute(a: seq<SymbolLength>, b: seq<SymbolLength>, e: SymbolLength)
    requires Short(a) && Short(b) && multiset(a) == multiset(b)
    ensures Kraft(a) == Kraft(b) && Below(a, e) == Below(b, e)
    decreases |a|
  {
    if a == [] {
      assert |multiset(b)| == |b|;
    } else {
      var front, last := a[..|a| - 1], a[|a| - 1];
      var b1, b2 := MultisetSplit(a, b);
      WeightsMiddle(b1, last, b2, e);
      WeightsPermute(front, b1 + b2, e);
    }
  }

  /** In sorted order, what comes before the i-th entry is the prefix of length i. */
  lemma SortedBelow(s: seq<SymbolLength>, i: nat)
    requires Short(s) && Sorted(s) && i < |s|
    ensures Below(s, s[i]) == Kraft(s[..i])
  {
    BelowAll(s[..i], s[i]);
    BelowNone(s[i..], s[i]);
    assert s == s[..i] + s[i..];
    WeightsSplit(s[..i], s[i..], s[i]);
  }

  lemma {:induction false} BelowAll(s: seq<SymbolLength>, e: SymbolLength)
    requires Short(s) && forall i :: 0 <= i < |s| ==> Precedes(s[i], e)
    ensures Below(s, e) == Kraft(s)
  {
    if s == [] {
    } else {
      BelowAll(s[..|s| - 1], e);
    }
  }

  lemma {:induction false} BelowNone(s: seq<SymbolLength>, e: SymbolLength)
    requires Short(s) && forall i :: 0 <= i < |s| ==> !Precedes(s[i], e)
    ensures Below(s, e) == 0
  {
    if s == [] {
    } else {
      BelowNone(s[..|s| - 1], e);
    }
  }

  // ----- the reference code of a symbol, scaled to depth 15, is the weight below it

  /** What the n-th symbol adds. */
  lemma BelowStep(t: LengthTable, n: nat, e: SymbolLength)
    requires 0 < n <= 256
    ensures Below(Used(t, n), e)
         == Below(Used(t, n - 1), e)
            + if t[n - 1] != 0 && Precedes(SymbolLength(t[n - 1], n - 1), e) then Pow2(15 - t[n - 1]) else 0
  {
    if t[n - 1] != 0 {
      BelowSnoc(Used(t, n - 1), SymbolLength(t[n - 1], n - 1), e);
    }
  }

  lemma CountStep(t: LengthTable, len: nat, n: nat)
    requires 0 < n <= 256 && len <= 15
    ensures ShiftLeft(Count(t, len, n), 15 - len)
         == ShiftLeft(Count(t, len, n - 1), 15 - len) + if t[n - 1] == len then Pow2(15 - len) else 0
  {
    ShiftLeftSum(Count(t, len, n - 1), 1, 15 - len);
    ShiftLeftUnit(0, 15 - len);
  }

  lemma {:induction false} BelowFirst(t: LengthTable, n: nat)
    requires n <= 256
    ensures Below(Used(t, n), SymbolLength(1, 0)) == 0
  {
    if n == 0 {
    } else {
      BelowFirst(t, n - 1);
      BelowStep(t, n, SymbolLength(1, 0));
    }
  }

  lemma {:induction false} BelowLength(t: LengthTable, len: nat, n: nat)
    requires 1 < len <= 15 && n <= 256
    ensures Below(Used(t, n), SymbolLength(len, 0))
         == Below(Used(t, n), SymbolLength(len - 1, 0)) + ShiftLeft(Count(t, len - 1, n), 16 - len)
  {
    ShiftLeftUnit(0, 16 - len);
    if n == 0 {
    } else {
      BelowLength(t, len, n - 1);
      LengthStep(t, len, n);
    }
  }

  lemma LengthStep(t: LengthTable, len: nat, n: nat)
    requires 1 < len <= 15 && 0 < n <= 256
    ensures Below(Used(t, n), SymbolLength(len, 0)) - Below(Used(t, n - 1), SymbolLength(len, 0))
         == Below(Used(t, n), SymbolLength(len - 1, 0)) - Below(Used(t, n - 1), SymbolLength(len - 1, 0))
            + ShiftLeft(Count(t, len - 1, n), 16 - len) - ShiftLeft(Count(t, len - 1, n - 1), 16 - len)
  {
    hide Below, Count, Used, ShiftLeft;
    CountStep(t, len - 1, n);
    BelowStep(t, n, SymbolLength(len, 0));
    BelowStep(t, n, SymbolLength(len - 1, 0));
  }

  lemma {:induction false} FirstCodeWeight(t: LengthTable, len: nat)
    requires 0 < len <= 15
    ensures ShiftLeft(FirstCode(t, len), 15 - len) == Below(Used(t, |t|), SymbolLength(len, 0))
  {
    if len == 1 {
      assert FirstCode(t, 0) == 0;
      BelowFirst(t, |t|);
      ShiftLeftUnit(0, 14);
    } else {
      var f, c := FirstCode(t, len - 1), Count(t, len - 1, |t|);
      BelowLength(t, len, |t|);
      FirstCodeWeight(t, len - 1);
      ShiftLeftSum(f, c, 16 - len);
      assert ShiftLeft(f + c, 1) == 2 * (f + c);
      ShiftLeftTwice(f + c, 1, 15 - len);
    }
  }

  lemma {:induction false} RankWeight(t: LengthTable, symbol: byte, n: nat)
    requires n <= 256 && t[symbol] != 0
    ensures Below(Used(t, n), SymbolLength(t[symbol], symbol))
         == Below(Used(t, n), SymbolLength(t[symbol], 0))
            + ShiftLeft(Count(t, t[symbol], Min(n, symbol)), 15 - t[symbol])
  {
    ShiftLeftUnit(0, 15 - t[symbol]);
    if n == 0 {
    } else {
      RankWeight(t, symbol, n - 1);
      RankStep(t, symbol, n);
    }
  }

  lemma RankStep(t: LengthTable, symbol: byte, n: nat)
    requires 0 < n <= 256 && t[symbol] != 0
    ensures Below(Used(t, n), SymbolLength(t[symbol], symbol)) - Below(Used(t, n - 1), SymbolLength(t[symbol], symbol))
         == Below(Used(t, n), SymbolLength(t[symbol], 0)) - Below(Used(t, n - 1), SymbolLength(t[symbol], 0))
            + ShiftLeft(Count(t, t[symbol], Min(n, symbol)), 15 - t[symbol])
            - ShiftLeft(Count(t, t[symbol], Min(n - 1, symbol)), 15 - t[symbol])
  {
    hide Below, Count, Used, ShiftLeft;
    BelowStep(t, n, SymbolLength(t[symbol], symbol));
    BelowStep(t, n, SymbolLength(t[symbol], 0));
    if n <= symbol {
      CountStep(t, t[symbol], n);
    }
  }

  /** The code that section 3.2.2 of RFC 1951 gives a symbol, read as a path to depth 15,
      starts where the words before it end. */
  lemma Rfc1951Weight(t: LengthTable, symbol: byte)
    requires t[symbol] != 0
    ensures ShiftLeft(Rfc1951Code(t, symbol), 15 - t[symbol]) == Below(Used(t, |t|), SymbolLength(t[symbol], symbol))
  {
    FirstCodeWeight(t, t[symbol]);
    RankWeight(t, symbol, |t|);
    ShiftLeftSum(FirstCode(t, t[symbol]), Count(t, t[symbol], symbol), 15 - t[symbol]);
  }

  // ----- the source's loops

  function Insert(e: SymbolLength, s: seq<SymbolLength>): seq<SymbolLength> {
    if s == [] || Precedes(e, s[0]) then [e] + s else [s[0]] + Insert(e, s[1..])
  }

  /** Stands for the call of `std::sort`; `SortIsDetermined` says no other result is possible. */
  function SortEntries(s: seq<SymbolLength>): seq<SymbolLength> {
    if s == [] then [] else Insert(s[0], SortEntries(s[1..]))
  }

  predicate DistinctSymbols(s: seq<SymbolLength>) {
    forall i, j :: 0 <= i < j < |s| ==> s[i].symbol != s[j].symbol
  }

  lemma {:induction false} InsertSorts(e: SymbolLength, s: seq<SymbolLength>)
    requires Sorted(s) && forall i :: 0 <= i < |s| ==> s[i].symbol != e.symbol
    ensures Sorted(Insert(e, s)) && multiset(Insert(e, s)) == multiset{e} + multiset(s)
  {
    if s == [] || Precedes(e, s[0]) {
    } else {
      InsertSorts(e, s[1..]);
      var r := Insert(e, s[1..]);
      assert s == [s[0]] + s[1..];
      forall i | 0 <= i < |r|
        ensures Precedes(s[0], r[i])
      {
        assert r[i] in multiset(r);
        assert r[i] == e || r[i] in s[1..];
      }
    }
  }

  lemma {:induction false} SortSorts(s: seq<SymbolLength>)
    requires DistinctSymbols(s)
    ensures Sorted(SortEntries(s)) && multiset(SortEntries(s)) == multiset(s)
  {
    if s == [] {
    } else {
      SortSorts(s[1..]);
      var r := SortEntries(s[1..]);
      assert s == [s[0]] + s[1..];
      forall i | 0 <= i < |r|
        ensures r[i].symbol != s[0].symbol
      {
        assert r[i] in multiset(r);
        assert r[i] in s[1..];
      }
      InsertSorts(s[0], r);
    }
  }

  lemma SortedFirst(a: seq<SymbolLength>, x: SymbolLength)
    requires Sorted(a) && x in a
    ensures x == a[0] || Precedes(a[0], x)
  {
  }

  /** Any sorting algorithm gives the same sequence: two sorted arrangements are equal. */
  lemma {:induction false} SortIsDetermined(a: seq<SymbolLength>, b: seq<SymbolLength>)
    requires Sorted(a) && Sorted(b) && multiset(a) == multiset(b)
    ensures a == b
  {
    assert |multiset(a)| == |a| && |multiset(b)| == |b|;
    if a == [] {
    } else {
      assert a[0] in multiset(a) && b[0] in multiset(b);
      SortedFirst(b, a[0]);
      SortedFirst(a, b[0]);
      assert a == [a[0]] + a[1..] && b == [b[0]] + b[1..];
      assert a[0] == b[0];
      assert multiset(a[1..]) + multiset{a[0]} == multiset(a) == multiset(b) == multiset(b[1..]) + multiset{a[0]};
      DropOne(multiset(a[1..]), multiset(b[1..]), a[0]);
      SortIsDetermined(a[1..], b[1..]);
    }
  }

  lemma {:induction false} UsedDistinct(t: LengthTable, n: nat)
    requires n <= 256
    ensures DistinctSymbols(Used(t, n))
    ensures forall i :: 0 <= i < |Used(t, n)| ==> Used(t, n)[i].symbol < n
  {
    if n == 0 {
    } else {
      UsedDistinct(t, n - 1);
    }
  }

  /** `s` is a sorted arrangement of the symbols that have a code. */
  predicate SortedTable(t: LengthTable, s: seq<SymbolLength>) {
    Sorted(s) && multiset(s) == multiset(Used(t, |t|))
  }

  lemma TableEntry(t: LengthTable, s: seq<SymbolLength>, k: nat)
    requires SortedTable(t, s) && k < |s|
    ensures 0 < s[k].length == t[s[k].symbol]
  {
    assert s[k] in multiset(s);
    assert s[k] in Used(t, |t|);
    UsedEntries(t, |t|, s[k]);
  }

  lemma TableShort(t: LengthTable, s: seq<SymbolLength>)
    requires SortedTable(t, s)
    ensures Short(s)
  {
    forall k | 0 <= k < |s|
      ensures s[k].length <= 15
    {
      TableEntry(t, s, k);
    }
  }

  lemma TableBelow(t: LengthTable, s: seq<SymbolLength>, k: nat)
    requires SortedTable(t, s) && Short(s) && k < |s|
    ensures Below(Used(t, |t|), s[k]) == Kraft(s[..k])
  {
    SortedBelow(s, k);
    WeightsPermute(s, Used(t, |t|), s[k]);
  }

  lemma TableNext(t: LengthTable, s: seq<SymbolLength>, k: nat)
    requires SortedTable(t, s) && k + 1 < |s|
    ensures s[k].length <= s[k + 1].length
  {
    assert Precedes(s[k], s[k + 1]);
  }

  lemma TableCovers(t: LengthTable, s: seq<SymbolLength>, c: byte) returns (j: nat)
    requires SortedTable(t, s) && t[c] != 0
    ensures j < |s| && s[j].symbol == c
  {
    UsedEntries(t, |t|, SymbolLength(t[c], c));
    assert SymbolLength(t[c], c) in multiset(Used(t, |t|));
    assert SymbolLength(t[c], c) in multiset(s);
    j :| 0 <= j < |s| && s[j] == SymbolLength(t[c], c);
  }

  /** One round of the assignment loop: the shifted counter is the reference code, and
      counting on keeps the counter at the weight of the entries done. */
  lemma AssignStep(t: LengthTable, e: SymbolLength, code: nat, last: nat)
    requires last <= e.length == t[e.symbol] && e.length > 0
    requires ShiftLeft(code, 15 - last) == Below(Used(t, |t|), e)
    ensures ShiftLeft(code, e.length - last) == Rfc1951Code(t, e.symbol)
    ensures ShiftLeft(Rfc1951Code(t, e.symbol) + 1, 15 - e.length) == Below(Used(t, |t|), e) + Pow2(15 - e.length)
  {
    var shifted, reference := ShiftLeft(code, e.length - last), Rfc1951Code(t, e.symbol);
    Rfc1951Weight(t, e.symbol);
    ShiftLeftTwice(code, e.length - last, 15 - e.length);
    ShiftLeftOrder(shifted, reference, 15 - e.length);
    ShiftLeftOrder(reference, shifted, 15 - e.length);
    ShiftLeftSum(reference, 1, 15 - e.length);
    ShiftLeftUnit(0, 15 - e.length);
  }

  lemma KraftStep(s: seq<SymbolLength>, k: nat)
    requires Short(s) && k < |s|
    ensures Kraft(s[..k + 1]) == Kraft(s[..k]) + Pow2(15 - s[k].length)
  {
    assert s[..k + 1][..k] == s[..k];
  }

  /** The text of a code: its last `length` digits out of all `digits`, as the source cuts them
      from a bitset. */
  function Render(code: nat, length: nat, digits: nat): (bits: seq<bool>)
    requires length <= digits
    ensures bits == LowBits(code, length)
  {
    LowBitsSuffix(code, length, digits);
    LowBits(code, digits)[digits - length..]
  }

  /** The word RFC 1951 gives a symbol, cut to its length. */
  function Word(t: LengthTable, c: byte): (w: seq<bool>)
    ensures |w| == t[c]
  {
    LowBits(Rfc1951Code(t, c), t[c])
  }

  /** The words of all symbols that have one. */
  function Codes(t: LengthTable): CodeMap {
    map c: byte | 0 <= c < |t| && t[c] != 0 :: Word(t, c)
  }

  predicate CounterAt(s: seq<SymbolLength>, k: nat, code: nat, last: nat)
    requires k <= |s| && Short(s)
  {
    last <= 15 && ShiftLeft(code, 15 - last) == Kraft(s[..k]) && (k < |s| ==> last <= s[k].length)
  }

  lemma CounterStart(s: seq<SymbolLength>)
    requires Short(s)
    ensures CounterAt(s, 0, 0, 0)
  {
    ShiftLeftUnit(0, 15);
  }

  lemma CounterStep(t: LengthTable, s: seq<SymbolLength>, k: nat, code: nat, last: nat) returns (shifted: nat)
    requires SortedTable(t, s) && Short(s) && k < |s| && CounterAt(s, k, code, last)
    ensures last <= s[k].length && shifted == ShiftLeft(code, s[k].length - last)
    ensures last == s[k].length ==> shifted == code
    ensures t[s[k].symbol] == s[k].length > 0
    ensures LowBits(shifted, s[k].length) == Word(t, s[k].symbol)
    ensures CounterAt(s, k + 1, shifted + 1, s[k].length)
  {
    shifted := ShiftLeft(code, s[k].length - last);
    TableEntry(t, s, k);
    TableBelow(t, s, k);
    AssignStep(t, s[k], code, last);
    KraftStep(s, k);
    if k + 1 < |s| {
      TableNext(t, s, k);
    }
  }

  lemma AllCovered(t: LengthTable, s: seq<SymbolLength>, codes: CodeMap)
    requires SortedTable(t, s)
    requires forall j :: 0 <= j < |s| ==> s[j].symbol in codes
    ensures forall c: byte :: t[c] != 0 ==> c in codes
  {
    forall c: byte | t[c] != 0
      ensures c in codes
    {
      var j := TableCovers(t, s, c);
      assert s[j].symbol in codes;
    }
  }

  /** The assignment loop of `generate_codes`, over any sorted arrangement. */
  method AssignCodes(t: LengthTable, sorted: seq<SymbolLength>) returns (codes: CodeMap)
    requires SortedTable(t, sorted)
    ensures codes == Codes(t)
  {
    hide Word, CounterAt, SortedTable;
    codes := map[];
    var digits := 15;
    var code: nat, lastLength: nat := 0, 0;
    TableShort(t, sorted);
    CounterStart(sorted);
    for k := 0 to |sorted|
      invariant CounterAt(sorted, k, code, lastLength)
      invariant forall j :: 0 <= j < k ==> sorted[j].symbol in codes
      invariant forall c :: c in codes ==> t[c] != 0 && codes[c] == Word(t, c)
    {
      var length, character := sorted[k].length, sorted[k].symbol;
      ghost var shifted := CounterStep(t, sorted, k, code, lastLength);
      if lastLength != length {
        code := ShiftLeft(code, length - lastLength);
        lastLength := length;
      }
      assert code == shifted;
      codes := codes[character := Render(code, length, digits)];
      code := code + 1;
    }
    AllCovered(t, sorted, codes);
  }

  /** `generate_codes`: exactly the symbols of non-zero length get a word, and it is the
      low bits of the code of RFC 1951, for every table. */
  method GenerateCodes(t: LengthTable) returns (codes: CodeMap)
    ensures codes == Codes(t)
  {
    var collected: seq<SymbolLength> := [];
    for i := 0 to |t|
      invariant collected == Used(t, i)
    {
      if t[i] != 0 {
        collected := collected + [SymbolLength(t[i], i)];
      }
    }
    UsedDistinct(t, |t|);
    SortSorts(collected);
    codes := AssignCodes(t, SortEntries(collected));
  }
}
