/** Prefix-freeness of the generated code, and exactly when it holds. */
module PrefixCodes {
  import opened Machine
  import opened CanonicalCode

  predicate IsPrefix(u: seq<bool>, v: seq<bool>) {
    |u| <= |v| && v[..|u|] == u
  }

  predicate PrefixFree(codes: CodeMap) {
    forall a, b :: a in codes && b in codes && a != b ==> !IsPrefix(codes[a], codes[b])
  }

  /** A word covers the leaves `Low(w) .. Low(w) + Span(w)` at depth 15. */
  function Low(w: seq<bool>): nat
    requires |w| <= 15
  {
    ShiftLeft(BitsValue(w), 15 - |w|)
  }

  function Span(w: seq<bool>): (n: nat)
    requires |w| <= 15
    ensures n > 0
  {
    Pow2(15 - |w|)
  }

  /** Dropping the last bit doubles the span and keeps or lowers the start. */
  lemma ParentCovers(v: seq<bool>)
    requires 0 < |v| <= 15
    ensures var p := v[..|v| - 1];
            Span(p) == 2 * Span(v) && Low(v) == Low(p) + if v[|v| - 1] then Span(v) else 0
  {
    var value := BitsValue(v[..|v| - 1]);
    ShiftLeftSum(2 * value, if v[|v| - 1] then 1 else 0, 15 - |v|);
    ShiftLeftUnit(0, 15 - |v|);
    assert ShiftLeft(value, 1) == 2 * value;
    ShiftLeftTwice(value, 1, 15 - |v|);
  }

  lemma {:induction false} PrefixCovers(u: seq<bool>, v: seq<bool>)
    requires |v| <= 15 && IsPrefix(u, v)
    ensures Low(u) <= Low(v) && Low(v) + Span(v) <= Low(u) + Span(u)
    decreases |v|
  {
    if |u| == |v| {
      assert u == v;
    } else {
      ParentCovers(v);
      assert v[..|v| - 1][..|u|] == u;
      PrefixCovers(u, v[..|v| - 1]);
    }
  }

  lemma {:induction false} SameLengthApart(u: seq<bool>, v: seq<bool>)
    requires |u| == |v| <= 15 && u != v
    ensures Low(u) + Span(u) <= Low(v) || Low(v) + Span(v) <= Low(u)
    decreases |v|
  {
    if |u| == 0 {
    } else {
      ParentCovers(u);
      ParentCovers(v);
      var n := |u| - 1;
      if u[..n] != v[..n] {
        SameLengthApart(u[..n], v[..n]);
      } else {
        assert u == u[..n] + [u[n]] && v == v[..n] + [v[n]];
      }
    }
  }

  lemma {:induction false} NoPrefixApart(u: seq<bool>, v: seq<bool>)
    requires |u| <= |v| <= 15 && !IsPrefix(u, v)
    ensures Low(u) + Span(u) <= Low(v) || Low(v) + Span(v) <= Low(u)
    decreases |v|
  {
    if |u| == |v| {
      assert v[..|u|] == v;
      SameLengthApart(u, v);
    } else {
      ParentCovers(v);
      assert v[..|v| - 1][..|u|] == v[..|u|];
      NoPrefixApart(u, v[..|v| - 1]);
    }
  }

  // ----- Kraft implies prefix-free

  lemma {:induction false} BelowGap(s: seq<SymbolLength>, a: SymbolLength, b: SymbolLength)
    requires Short(s) && a in s && Precedes(a, b)
    ensures Below(s, a) + Weight(a) <= Below(s, b)
  {
    var front, last := s[..|s| - 1], s[|s| - 1];
    if last == a {
      BelowMonotone(front, a, b);
    } else {
      BelowGap(front, a, b);
    }
  }

  lemma {:induction false} BelowMonotone(s: seq<SymbolLength>, a: SymbolLength, b: SymbolLength)
    requires Short(s) && Precedes(a, b)
    ensures Below(s, a) <= Below(s, b)
  {
    if s == [] {
    } else {
      BelowMonotone(s[..|s| - 1], a, b);
    }
  }

  lemma {:induction false} BelowTotal(s: seq<SymbolLength>, a: SymbolLength)
    requires Short(s) && a in s
    ensures Below(s, a) + Weight(a) <= Kraft(s)
  {
    var front, last := s[..|s| - 1], s[|s| - 1];
    if last == a {
      BelowAtMost(front, a);
    } else {
      BelowTotal(front, a);
    }
  }

  lemma {:induction false} BelowAtMost(s: seq<SymbolLength>, a: SymbolLength)
    requires Short(s)
    ensures Below(s, a) <= Kraft(s)
  {
    if s == [] {
    } else {
      BelowAtMost(s[..|s| - 1], a);
    }
  }

  lemma ReferenceFits(t: LengthTable, c: byte)
    requires KraftHolds(t) && t[c] != 0
    ensures Rfc1951Code(t, c) < Pow2(t[c])
  {
    hide Used, Below, Rfc1951Code, Kraft;
    var n, e := t[c], SymbolLength(t[c], c);
    UsedEntries(t, |t|, e);
    BelowTotal(Used(t, |t|), e);
    Rfc1951Weight(t, c);
    ShiftLeftUnit(n, 15 - n);
    ShiftLeftOrder(Rfc1951Code(t, c), Pow2(n), 15 - n);
  }

  /** Under the Kraft inequality the reference code of a symbol fits its length, so cutting it
      to that many bits loses nothing, and the word covers exactly the leaves after all
      words before it. */
  lemma WordFits(t: LengthTable, c: byte)
    requires KraftHolds(t) && t[c] != 0
    ensures BitsValue(Word(t, c)) == Rfc1951Code(t, c) < Pow2(t[c])
    ensures Low(Word(t, c)) == Below(Used(t, |t|), SymbolLength(t[c], c))
  {
    ReferenceFits(t, c);
    LowBitsValue(Rfc1951Code(t, c), t[c]);
    SmallMod(Rfc1951Code(t, c), Pow2(t[c]));
    Rfc1951Weight(t, c);
  }

  lemma SmallMod(a: nat, m: nat)
    requires a < m
    ensures a % m == a
  {
  }

  lemma WordsInOrder(t: LengthTable, a: byte, b: byte)
    requires KraftHolds(t) && t[a] != 0 && t[b] != 0 && Precedes(SymbolLength(t[a], a), SymbolLength(t[b], b))
    ensures Low(Word(t, a)) + Span(Word(t, a)) <= Low(Word(t, b))
  {
    var ea, eb := SymbolLength(t[a], a), SymbolLength(t[b], b);
    assert Below(Used(t, |t|), ea) + Weight(ea) <= Below(Used(t, |t|), eb) by {
      UsedEntries(t, |t|, ea);
      BelowGap(Used(t, |t|), ea, eb);
    }
    assert Low(Word(t, a)) == Below(Used(t, |t|), ea) by { WordFits(t, a); }
    assert Low(Word(t, b)) == Below(Used(t, |t|), eb) by { WordFits(t, b); }
  }

  lemma KraftGivesPrefixFree(t: LengthTable)
    requires KraftHolds(t)
    ensures PrefixFree(Codes(t))
  {
    forall a, b | a in Codes(t) && b in Codes(t) && a != b && IsPrefix(Word(t, a), Word(t, b))
      ensures false
    {
      PrefixCovers(Word(t, a), Word(t, b));
      if Precedes(SymbolLength(t[a], a), SymbolLength(t[b], b)) {
        WordsInOrder(t, a, b);
      } else {
        WordsInOrder(t, b, a);
      }
    }
  }

  // ----- prefix-free implies Kraft

  function Range(lo: int, n: nat): (r: set<int>)
    ensures forall x :: x in r <==> lo <= x < lo + n
    ensures |r| == n
  {
    if n == 0 then {} else Range(lo, n - 1) + {lo + n - 1}
  }

  /** The leaves covered by the words of the symbols below `n`. */
  function Leaves(t: LengthTable, n: nat): set<int>
    requires n <= 256
  {
    if n == 0 then {}
    else if t[n - 1] == 0 then Leaves(t, n - 1)
    else Leaves(t, n - 1) + Range(Low(Word(t, n - 1)), Span(Word(t, n - 1)))
  }

  lemma {:induction false} LeafOwner(t: LengthTable, n: nat, x: int)
    requires n <= 256 && x in Leaves(t, n)
    ensures 0 <= x < Pow2(15)
    ensures exists c: byte :: c < n && t[c] != 0 && Low(Word(t, c)) <= x < Low(Word(t, c)) + Span(Word(t, c))
  {
    if t[n - 1] != 0 && x in Range(Low(Word(t, n - 1)), Span(Word(t, n - 1))) {
      PrefixCovers([], Word(t, n - 1));
      ShiftLeftUnit(0, 15);
    } else {
      LeafOwner(t, n - 1, x);
    }
  }

  lemma {:induction false} LeavesCount(t: LengthTable, n: nat)
    requires n <= 256 && PrefixFree(Codes(t))
    ensures |Leaves(t, n)| == Kraft(Used(t, n))
  {
    hide PrefixFree, Word, Low;
    if n == 0 {
    } else {
      LeavesCount(t, n - 1);
      if t[n - 1] != 0 {
        LeavesDisjoint(t, n);
        DisjointSize(Leaves(t, n - 1), Range(Low(Word(t, n - 1)), Span(Word(t, n - 1))));
      }
    }
  }

  lemma DisjointSize(a: set<int>, b: set<int>)
    requires a !! b
    ensures |a + b| == |a| + |b|
  {
  }

  lemma LeavesDisjoint(t: LengthTable, n: nat)
    requires 0 < n <= 256 && PrefixFree(Codes(t)) && t[n - 1] != 0
    ensures Leaves(t, n - 1) !! Range(Low(Word(t, n - 1)), Span(Word(t, n - 1)))
  {
    var w := Word(t, n - 1);
    forall x | x in Leaves(t, n - 1)
      ensures x !in Range(Low(w), Span(w))
    {
      LeafOwner(t, n - 1, x);
      var c: byte :| c < n - 1 && t[c] != 0 && Low(Word(t, c)) <= x < Low(Word(t, c)) + Span(Word(t, c));
      WordsApart(t, c, n - 1);
    }
  }

  lemma WordsApart(t: LengthTable, a: byte, b: byte)
    requires PrefixFree(Codes(t)) && t[a] != 0 && t[b] != 0 && a != b
    ensures var u, v := Word(t, a), Word(t, b);
            Low(u) + Span(u) <= Low(v) || Low(v) + Span(v) <= Low(u)
  {
    assert a in Codes(t) && b in Codes(t);
    if t[a] <= t[b] {
      NoPrefixApart(Word(t, a), Word(t, b));
    } else {
      NoPrefixApart(Word(t, b), Word(t, a));
    }
  }

  lemma SubsetSize(a: set<int>, b: set<int>)
    requires a <= b
    ensures |a| <= |b|
  {
    assert b == a + (b - a);
  }

  lemma PrefixFreeGivesKraft(t: LengthTable)
    requires PrefixFree(Codes(t))
    ensures KraftHolds(t)
  {
    hide Leaves, Word, Low, Span, PrefixFree;
    LeavesCount(t, |t|);
    forall x | x in Leaves(t, |t|)
      ensures x in Range(0, Pow2(15))
    {
      LeafOwner(t, |t|, x);
    }
    SubsetSize(Leaves(t, |t|), Range(0, Pow2(15)));
  }

  /** `generate_codes` yields a prefix code exactly for the tables whose Kraft sum is at most one. */
  lemma PrefixFreeIffKraft(t: LengthTable)
    ensures PrefixFree(Codes(t)) <==> KraftHolds(t)
  {
    if KraftHolds(t) {
      KraftGivesPrefixFree(t);
    }
    if PrefixFree(Codes(t)) {
      PrefixFreeGivesKraft(t);
    }
  }

  /** The code counter of the assignment loop never leaves the range of a 32-bit `int`. */
  lemma CounterFitsInt(t: LengthTable, c: byte)
    requires t[c] != 0
    ensures Rfc1951Code(t, c) + 1 < 0x8000_0000
  {
    UsedEntries(t, |t|, SymbolLength(t[c], c));
    BelowTotal(Used(t, |t|), SymbolLength(t[c], c));
    KraftBound(t, |t|);
    Rfc1951Weight(t, c);
    ShiftLeftOrder(Rfc1951Code(t, c), 0, 15 - t[c]);
  }

  lemma {:induction false} WeightBound(n: nat)
    requires n <= 14
    ensures Pow2(n) <= 0x4000
    decreases 14 - n
  {
    if n == 14 {
      assert Pow2(14) == 0x4000;
    } else {
      WeightBound(n + 1);
    }
  }

  lemma {:induction false} KraftBound(t: LengthTable, n: nat)
    requires n <= 256
    ensures Kraft(Used(t, n)) <= 0x4000 * n
  {
    if n == 0 {
    } else {
      KraftBound(t, n - 1);
      if t[n - 1] != 0 {
        WeightBound(15 - t[n - 1]);
      }
    }
  }
}
