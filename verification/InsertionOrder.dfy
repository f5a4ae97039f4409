/** When the Huffman tree of a table depends on the order in which a hash map hands out its codes. */
module InsertionOrder {
  import opened Machine
  import opened CanonicalCode
  import opened PrefixCodes
  import opened Huffman

  // ----- orders

  lemma {:induction false} SomeOrder(symbols: set<byte>) returns (order: seq<byte>)
    ensures (forall c :: c in order <==> c in symbols) && forall i, j :: 0 <= i < j < |order| ==> order[i] != order[j]
    decreases |symbols|
  {
    if symbols == {} {
      order := [];
    } else {
      var c :| c in symbols;
      var before := SomeOrder(symbols - {c});
      order := before + [c];
    }
  }

  /** An order in which a symbol comes last, so that it is the one left at its word. */
  lemma OrderWithLast(codes: CodeMap, last: byte) returns (order: seq<byte>)
    requires last in codes
    ensures IsOrder(codes, order) && codes[last] in Built(codes, order) && Built(codes, order)[codes[last]] == last
  {
    var before := SomeOrder(codes.Keys - {last});
    order := before + [last];
    assert Listed(codes, before);
    BuiltNext(codes, before, last);
  }

  predicate SameForAllOrders(codes: CodeMap, one: seq<byte>, two: seq<byte>) {
    IsOrder(codes, one) && IsOrder(codes, two) ==> Built(codes, one) == Built(codes, two)
  }

  /** Two orders give different trees if and only if two symbols share a word. */
  lemma SameTreeIffInjective(codes: CodeMap)
    ensures (forall one: seq<byte>, two: seq<byte> :: SameForAllOrders(codes, one, two)) <==> Injective(codes)
  {
    hide Built, Realises;
    if Injective(codes) {
      forall one: seq<byte>, two: seq<byte> | IsOrder(codes, one) && IsOrder(codes, two)
        ensures Built(codes, one) == Built(codes, two)
      {
        BuiltRealises(codes, one);
        BuiltRealises(codes, two);
        ShapeIsDetermined(codes, Built(codes, one), Built(codes, two));
      }
    } else {
      var a, b :| a in codes && b in codes && codes[a] == codes[b] && a != b;
      var one := OrderWithLast(codes, a);
      var two := OrderWithLast(codes, b);
      assert !SameForAllOrders(codes, one, two);
    }
  }

  // ----- tables

  /** No length is given to more symbols than there are words of it. */
  predicate CountsFit(t: LengthTable) {
    forall len :: 1 <= len <= 15 ==> Count(t, len, |t|) <= Pow2(len)
  }

  lemma {:induction false} CountGrows(t: LengthTable, len: nat, i: nat, j: nat)
    requires i < j <= 256
    ensures Count(t, len, i) + (if t[i] == len then 1 else 0) <= Count(t, len, j)
    decreases j
  {
    if i < j - 1 {
      CountGrows(t, len, i, j - 1);
    }
  }

  lemma {:induction false} SymbolOfRank(t: LengthTable, len: nat, rank: nat, n: nat) returns (c: byte)
    requires n <= 256 && rank < Count(t, len, n)
    ensures c < n && t[c] == len && Count(t, len, c) == rank
    decreases n
  {
    if rank < Count(t, len, n - 1) {
      c := SymbolOfRank(t, len, rank, n - 1);
    } else {
      c := n - 1;
    }
  }

  /** Codes that lie 2^n apart have the same low bits. */
  lemma {:induction false} LowBitsRepeat(v: nat, n: nat)
    ensures LowBits(v + Pow2(n), n) == LowBits(v, n)
    decreases n
  {
    if n > 0 {
      assert (v + Pow2(n)) / 2 == v / 2 + Pow2(n - 1) && (v + Pow2(n)) % 2 == v % 2;
      LowBitsRepeat(v / 2, n - 1);
    }
  }

  lemma NearResidues(x: nat, y: nat, m: nat)
    requires x <= y < x + m && x % m == y % m
    ensures x == y
  {
    var d := y / m - x / m;
    assert y == m * (y / m) + y % m && x == m * (x / m) + x % m;
    assert m * d == y - x;
    if d >= 1 {
      AtLeast(m, d);
    }
  }

  lemma DistinctWords(t: LengthTable, a: byte, b: byte)
    requires CountsFit(t) && t[a] == t[b] != 0 && a < b
    ensures Word(t, a) != Word(t, b)
  {
    var len := t[a];
    CountGrows(t, len, a, b);
    CountGrows(t, len, b, |t|);
    LowBitsValue(Rfc1951Code(t, a), len);
    LowBitsValue(Rfc1951Code(t, b), len);
    if Word(t, a) == Word(t, b) {
      NearResidues(Rfc1951Code(t, a), Rfc1951Code(t, b), Pow2(len));
    }
  }

  lemma SharedWord(t: LengthTable, len: nat) returns (a: byte, b: byte)
    requires 1 <= len <= 15 && Count(t, len, |t|) > Pow2(len)
    ensures t[a] == t[b] == len && a != b && Word(t, a) == Word(t, b)
  {
    a := SymbolOfRank(t, len, 0, |t|);
    b := SymbolOfRank(t, len, Pow2(len), |t|);
    LowBitsRepeat(FirstCode(t, len), len);
  }

  lemma InjectiveIffCountsFit(t: LengthTable)
    ensures Injective(Codes(t)) <==> CountsFit(t)
  {
    hide Word, Count;
    if CountsFit(t) {
      forall a, b | a in Codes(t) && b in Codes(t) && a != b
        ensures Codes(t)[a] != Codes(t)[b]
      {
        if t[a] == t[b] {
          if a < b {
            DistinctWords(t, a, b);
          } else {
            DistinctWords(t, b, a);
          }
        } else {
          assert |Word(t, a)| != |Word(t, b)|;
        }
      }
    } else {
      var len :| 1 <= len <= 15 && Count(t, len, |t|) > Pow2(len);
      var a, b := SharedWord(t, len);
      assert a in Codes(t) && b in Codes(t);
    }
  }

  /** The tree `build_huffman_tree` makes of a table is the same for every iteration order of the hash
      map if and only if no length is given to more symbols than there are words of it. */
  lemma SameTreeIff(t: LengthTable)
    ensures (forall one: seq<byte>, two: seq<byte> :: SameForAllOrders(Codes(t), one, two)) <==> CountsFit(t)
  {
    SameTreeIffInjective(Codes(t));
    InjectiveIffCountsFit(t);
  }

  /** Three symbols with words of length one. */
  const THREE_OF_ONE: LengthTable := seq(256, i => if i < 3 then 1 else 0)

  lemma ThreeOfOneExample()
    ensures exists one: seq<byte>, two: seq<byte> ::
              IsOrder(Codes(THREE_OF_ONE), one) && IsOrder(Codes(THREE_OF_ONE), two)
              && Built(Codes(THREE_OF_ONE), one) != Built(Codes(THREE_OF_ONE), two)
  {
    hide Codes, Built;
    CountGrows(THREE_OF_ONE, 1, 0, 1);
    CountGrows(THREE_OF_ONE, 1, 1, 2);
    CountGrows(THREE_OF_ONE, 1, 2, |THREE_OF_ONE|);
    TwoWords();
    SameTreeIff(THREE_OF_ONE);
    var one: seq<byte>, two: seq<byte> :| !SameForAllOrders(Codes(THREE_OF_ONE), one, two);
  }

  lemma TwoWords()
    ensures Pow2(1) == 2
  {
  }
}
