/** `decode_substring`: the walk over a bit range, and its inverse, the encoder. */
module HuffmanDecode {
  import opened Machine
  import opened CanonicalCode
  import opened PrefixCodes
  import opened BitStream
  import opened Latin1
  import opened Huffman

  function Prepend(head: seq<byte>, o: Outcome<seq<byte>>): Outcome<seq<byte>> {
    match o
    case Defined(tail) => Defined(head + tail)
    case Undefined => Undefined
  }

  /** The symbol of a leaf, nothing elsewhere. */
  function Emit(shape: Shape, p: seq<bool>): seq<byte>
    requires p in shape
  {
    if IsLeaf(shape, p) then [shape[p]] else []
  }

  /** The symbols the walk from `p` emits: a leaf is left for the root before the next bit is
      taken, and the last leaf is emitted at the end. Undefined when a missing child is entered,
      which the source then dereferences. */
  function Walk(shape: Shape, p: seq<bool>, bits: seq<bool>): Outcome<seq<byte>>
    requires [] in shape && p in shape
    decreases |bits|
  {
    if bits == [] then Defined(Emit(shape, p))
    else
      var next := (if IsLeaf(shape, p) then [] else p) + [bits[0]];
      if next in shape then Prepend(Emit(shape, p), Walk(shape, next, bits[1..])) else Undefined
  }

  /** One lookup of the loop: the masks of the source reach the bit at `bitPos` of the stream. */
  method TakeTurn(bitstream: seq<byte>, bitPos: uint32, node: HuffmanTree) returns (next: HuffmanTree?)
    requires BitInside(bitstream, bitPos)
    ensures next == if BitAt(bitstream, bitPos) then node.right else node.left
  {
    hide MaskedIndex, Mask, Bits8, Bits32, Number32, Pow2, Swapped;
    var bytePos := bitPos / 8;
    var bitOffset := bitPos % 8;
    MasksSwap(bytePos);
    var index := Number32(MaskedIndex(Bits32(bytePos)));
    var octet := Character(bitstream, index);
    MaskSelects(octet, 7 - bitOffset);
    if Bits8(octet) & Mask(7 - bitOffset) != 0 {
      next := node.right;
    } else {
      next := node.left;
    }
  }

  /** What a bit range says: the UTF-8 of the symbols of the walk, or undefined when the walk leaves
      the tree or the range the buffer. */
  function Decoded(shape: Shape, buffer: seq<byte>, start: uint32, end: uint32): Outcome<seq<byte>>
    requires [] in shape
  {
    if !BitsInside(buffer, start, end) then Undefined
    else match Walk(shape, [], Bits(buffer, start, end))
      case Defined(symbols) => Defined(Utf8(symbols))
      case Undefined => Undefined
  }

  /** `decode_substring`, for any tree and any range. */
  method DecodeSubstring(bitstream: seq<byte>, tree: HuffmanTree, ghost nodes: Nodes, start: uint32, end: uint32)
    returns (r: Outcome<seq<byte>>)
    requires Linked(tree, nodes)
    ensures r == Decoded(ShapeOf(nodes), bitstream, start, end)
  {
    hide Walk, Utf8, BitAt, BitInside, Width, Position;
    var result: seq<byte> := [];
    var node := tree;
    var totalBits := Width(start, end);
    ghost var shape := ShapeOf(nodes);
    ghost var inside := BitsInside(bitstream, start, end);
    ghost var bits := if inside then Bits(bitstream, start, end) else seq(totalBits, _ => false);
    ghost var p: seq<bool>, symbols: seq<byte> := [], [];
    assert bits[0..] == bits;
    PrependNothing(Walk(shape, [], bits));
    Utf8Nothing();
    for i := 0 to totalBits
      invariant p in shape && node == nodes[p] && result == Utf8(symbols)
      invariant inside ==> Walk(shape, [], bits) == Prepend(symbols, Walk(shape, p, bits[i..]))
      invariant forall k :: 0 <= k < i ==> BitInside(bitstream, Position(start, k))
    {
      var bitPos := Position(start, i);
      if !BitInside(bitstream, bitPos) {
        return Undefined;
      }
      ghost var bit := BitAt(bitstream, bitPos);
      if inside {
        WalkStep(shape, symbols, p, bits, i);
      }
      LeafNode(tree, nodes, p);
      Utf8Snoc(symbols, node.c);
      if node.left == null && node.right == null {
        var utf8 := Iso88591ToUtf8(node.c);
        result := result + utf8;
        symbols := symbols + [node.c];
        node := tree;
        p := [];
      }
      var next := TakeTurn(bitstream, bitPos, node);
      ChildAt(tree, nodes, p, bit);
      if next == null {
        assert p + [bit] !in shape;
        assert inside ==> Walk(shape, [], bits) == Undefined;
        return Undefined;
      }
      node := next;
      p := p + [bit];
    }
    assert inside;
    WalkEnd(shape, symbols, p, bits);
    assert Walk(shape, [], bits) == Defined(symbols + Emit(shape, p));
    LeafNode(tree, nodes, p);
    Utf8Snoc(symbols, node.c);
    if node.left == null && node.right == null {
      var utf8 := Iso88591ToUtf8(node.c);
      result := result + utf8;
    }
    assert result == Utf8(symbols + Emit(shape, p));
    r := Defined(result);
  }

  lemma LeafNode(tree: HuffmanTree, nodes: Nodes, p: seq<bool>)
    requires Linked(tree, nodes) && p in nodes
    ensures (nodes[p].left == null && nodes[p].right == null) == IsLeaf(ShapeOf(nodes), p)
    ensures Emit(ShapeOf(nodes), p) == if nodes[p].left == null && nodes[p].right == null then [nodes[p].c] else []
  {
    ChildAt(tree, nodes, p, false);
    ChildAt(tree, nodes, p, true);
  }

  lemma ChildAt(tree: HuffmanTree, nodes: Nodes, p: seq<bool>, bit: bool)
    requires Linked(tree, nodes) && p in nodes
    ensures (if bit then nodes[p].right else nodes[p].left) == Child(nodes, p, bit)
  {
  }

  lemma PrependNothing(o: Outcome<seq<byte>>)
    ensures Prepend([], o) == o
  {
    if o.Defined? {
      assert [] + o.value == o.value;
    }
  }

  lemma WalkEnd(shape: Shape, emitted: seq<byte>, p: seq<bool>, bits: seq<bool>)
    requires [] in shape && p in shape
    ensures Prepend(emitted, Walk(shape, p, bits[|bits|..])) == Defined(emitted + Emit(shape, p))
  {
  }

  lemma Utf8Nothing()
    ensures Utf8([]) == []
  {
  }

  lemma Utf8Snoc(s: seq<byte>, c: byte)
    ensures Utf8(s + [c]) == Utf8(s) + Utf8Char(c)
    ensures s + [] == s
  {
    assert (s + [c])[..|s|] == s;
  }

  lemma PrependTwice(a: seq<byte>, b: seq<byte>, o: Outcome<seq<byte>>)
    ensures Prepend(a, Prepend(b, o)) == Prepend(a + b, o)
  {
    if o.Defined? {
      assert a + (b + o.value) == (a + b) + o.value;
    }
  }

  /** One iteration, with what was emitted before it. */
  lemma WalkStep(shape: Shape, emitted: seq<byte>, p: seq<bool>, bits: seq<bool>, i: nat)
    requires [] in shape && p in shape && i < |bits|
    ensures Prepend(emitted, Walk(shape, p, bits[i..]))
         == (var next := (if IsLeaf(shape, p) then [] else p) + [bits[i]];
             if next in shape then Prepend(emitted + Emit(shape, p), Walk(shape, next, bits[i + 1..])) else Undefined)
  {
    var next := (if IsLeaf(shape, p) then [] else p) + [bits[i]];
    assert bits[i..][1..] == bits[i + 1..];
    if next in shape {
      PrependTwice(emitted, Emit(shape, p), Walk(shape, next, bits[i + 1..]));
    }
  }

  // ----- the encoder

  function Encode(codes: CodeMap, symbols: seq<byte>): seq<bool>
    requires forall s :: s in symbols ==> s in codes
  {
    if symbols == [] then [] else codes[symbols[0]] + Encode(codes, symbols[1..])
  }

  /** Inside a word the walk only descends. */
  lemma {:induction false} WalkWord(codes: CodeMap, shape: Shape, s: byte, k: nat, rest: seq<bool>)
    requires Realises(shape, codes) && PrefixFree(codes) && s in codes && k <= |codes[s]|
    requires codes[s][..k] in shape && codes[s] in shape && [] in shape
    ensures Walk(shape, codes[s][..k], codes[s][k..] + rest) == Walk(shape, codes[s], rest)
    decreases |codes[s]| - k
  {
    var w := codes[s];
    if k == |w| {
      assert w[..k] == w && w[k..] + rest == rest;
    } else {
      var p := w[..k];
      assert w[..k + 1] == p + [w[k]] && IsPrefix(w[..k + 1], w);
      assert OnPath(codes, w[..k + 1]);
      LeavesAreWords(codes, shape, p);
      assert !IsLeaf(shape, p) by {
        if IsLeaf(shape, p) {
          assert IsPrefix(codes[shape[p]], w);
        }
      }
      var bits := w[k..] + rest;
      assert bits[0] == w[k] && bits[1..] == w[k + 1..] + rest;
      PrependNothing(Walk(shape, w[..k + 1], bits[1..]));
      WalkWord(codes, shape, s, k + 1, rest);
    }
  }

  ghost predicate Usable(codes: CodeMap, shape: Shape) {
    Realises(shape, codes) && PrefixFree(codes) && codes != map[] && forall s :: s in codes ==> codes[s] != []
  }

  lemma RootIsInner(codes: CodeMap, shape: Shape)
    requires Usable(codes, shape)
    ensures [] in shape && !IsLeaf(shape, [])
  {
    assert OnPath(codes, []);
    LeavesAreWords(codes, shape, []);
  }

  /** The code words of a string followed by anything: its symbols, then the walk of the rest. */
  lemma {:induction false} WalkEncoded(codes: CodeMap, shape: Shape, symbols: seq<byte>, tail: seq<bool>)
    requires Usable(codes, shape) && [] in shape && forall s :: s in symbols ==> s in codes
    ensures Walk(shape, [], Encode(codes, symbols) + tail) == Prepend(symbols, Walk(shape, [], tail))
  {
    hide Walk, PrefixFree, Prepend;
    if symbols == [] {
      assert Encode(codes, symbols) + tail == tail;
      PrependNothing(Walk(shape, [], tail));
    } else {
      var s := symbols[0];
      var rest := Encode(codes, symbols[1..]) + tail;
      assert OnPath(codes, codes[s]) by { assert IsPrefix(codes[s], codes[s]); }
      assert Encode(codes, symbols) + tail == codes[s][0..] + rest;
      assert codes[s][..0] == [];
      WalkWord(codes, shape, s, 0, rest);
      WalkFromLeaf(codes, shape, s, rest);
      WalkEncoded(codes, shape, symbols[1..], tail);
      PrependTwice([s], symbols[1..], Walk(shape, [], tail));
      assert [s] + symbols[1..] == symbols;
    }
  }

  lemma WalkFromLeaf(codes: CodeMap, shape: Shape, s: byte, rest: seq<bool>)
    requires Usable(codes, shape) && [] in shape && s in codes && codes[s] in shape
    ensures Walk(shape, codes[s], rest) == Prepend([s], Walk(shape, [], rest))
  {
    RootIsInner(codes, shape);
    LeavesAreWords(codes, shape, codes[s]);
    assert IsWord(codes, codes[s]);
    assert shape[codes[s]] == s by {
      assert IsPrefix(codes[shape[codes[s]]], codes[s]);
    }
    assert [s] + [] == [s];
    if rest != [] && [] + [rest[0]] in shape {
      PrependNothing(Walk(shape, [] + [rest[0]], rest[1..]));
    }
  }

  lemma ProperPrefixIsInner(codes: CodeMap, shape: Shape, tail: seq<bool>, k: nat)
    requires Usable(codes, shape) && tail in shape && !IsWord(codes, tail) && k <= |tail|
    ensures tail[..k] in shape && !IsLeaf(shape, tail[..k])
  {
    assert tail[..0] == [];
    RootIsInner(codes, shape);
    if k > 0 {
      assert OnPath(codes, tail);
      var s :| s in codes && IsPrefix(tail, codes[s]);
      assert codes[s][..k] == tail[..k];
      assert OnPath(codes, tail[..k]);
      assert !IsWord(codes, tail[..k]) by { assert tail != codes[s]; }
      LeavesAreWords(codes, shape, tail[..k]);
    }
  }

  /** On a proper prefix of a word the walk emits nothing. */
  lemma {:induction false} WalkInner(codes: CodeMap, shape: Shape, k: nat, tail: seq<bool>)
    requires Usable(codes, shape) && [] in shape
    requires tail in shape && !IsWord(codes, tail) && k <= |tail| && tail[..k] in shape
    ensures Walk(shape, tail[..k], tail[k..]) == Defined([])
    decreases |tail| - k
  {
    hide Usable, IsWord, IsLeaf;
    ProperPrefixIsInner(codes, shape, tail, k);
    if k < |tail| {
      ProperPrefixIsInner(codes, shape, tail, k + 1);
      assert tail[..k + 1] == tail[..k] + [tail[k]] && tail[k..][1..] == tail[k + 1..];
      WalkInner(codes, shape, k + 1, tail);
      PrependNothing(Walk(shape, tail[..k + 1], tail[k + 1..]));
    }
  }

  /** What a walk that stays in the tree has read: code words of the emitted symbols, then an
      unfinished one. */
  lemma {:induction false} WalkReads(codes: CodeMap, shape: Shape, p: seq<bool>, bits: seq<bool>)
    returns (tail: seq<bool>)
    requires Usable(codes, shape) && [] in shape && p in shape && Walk(shape, p, bits).Defined?
    ensures forall s :: s in Walk(shape, p, bits).value ==> s in codes
    ensures p + bits == Encode(codes, Walk(shape, p, bits).value) + tail
    ensures tail in shape && !IsWord(codes, tail)
    decreases |bits|
  {
    var from := if IsLeaf(shape, p) then [] else p;
    EmitReads(codes, shape, p, from);
    if bits == [] {
      tail := from;
      assert p + bits == p;
    } else {
      var next := from + [bits[0]];
      tail := WalkReads(codes, shape, next, bits[1..]);
      var rest := Walk(shape, next, bits[1..]).value;
      EncodeAppend(codes, Emit(shape, p), rest);
      Rejoin(p, from, bits, Encode(codes, Emit(shape, p)), Encode(codes, rest), tail);
    }
  }

  lemma Rejoin(p: seq<bool>, from: seq<bool>, bits: seq<bool>, first: seq<bool>, rest: seq<bool>, tail: seq<bool>)
    requires bits != [] && p == first + from && from + [bits[0]] + bits[1..] == rest + tail
    ensures p + bits == first + rest + tail
  {
    assert from + [bits[0]] + bits[1..] == from + bits;
    assert p + bits == first + (from + bits);
  }

  lemma EmitReads(codes: CodeMap, shape: Shape, p: seq<bool>, from: seq<bool>)
    requires Usable(codes, shape) && [] in shape && p in shape && from == if IsLeaf(shape, p) then [] else p
    ensures from in shape && !IsWord(codes, from)
    ensures (forall s :: s in Emit(shape, p) ==> s in codes) && p == Encode(codes, Emit(shape, p)) + from
  {
    RootIsInner(codes, shape);
    LeavesAreWords(codes, shape, p);
    LeavesAreWords(codes, shape, []);
    if IsLeaf(shape, p) {
      assert [shape[p]][1..] == [];
      assert Encode(codes, [shape[p]]) == p + [];
    }
  }

  lemma {:induction false} EncodeAppend(codes: CodeMap, a: seq<byte>, b: seq<byte>)
    requires (forall s :: s in a ==> s in codes) && forall s :: s in b ==> s in codes
    ensures (forall s :: s in a + b ==> s in codes) && Encode(codes, a + b) == Encode(codes, a) + Encode(codes, b)
  {
    if a == [] {
      assert a + b == b;
    } else {
      EncodeAppend(codes, a[1..], b);
      assert (a + b)[1..] == a[1..] + b;
    }
  }

  // ----- the main results

  /** Exactly when a bit range decodes, and to what: it is the code words of the result followed
      by a proper prefix of some word. Every other range runs off the tree. */
  lemma DecodesIff(codes: CodeMap, shape: Shape, bits: seq<bool>, symbols: seq<byte>)
    requires Usable(codes, shape) && [] in shape
    ensures Walk(shape, [], bits) == Defined(symbols)
        <==> (forall s :: s in symbols ==> s in codes)
             && exists tail :: tail in shape && !IsWord(codes, tail) && bits == Encode(codes, symbols) + tail
  {
    if Walk(shape, [], bits) == Defined(symbols) {
      var tail := WalkReads(codes, shape, [], bits);
      assert [] + bits == bits;
    }
    if (forall s :: s in symbols ==> s in codes)
       && exists tail :: tail in shape && !IsWord(codes, tail) && bits == Encode(codes, symbols) + tail {
      var tail :| tail in shape && !IsWord(codes, tail) && bits == Encode(codes, symbols) + tail;
      WalkEncoded(codes, shape, symbols, tail);
      assert tail[..0] == [] && tail[0..] == tail;
      WalkInner(codes, shape, 0, tail);
      assert symbols + [] == symbols;
    }
  }

  /** The same of a range of a buffer: it decodes to the UTF-8 of given symbols exactly when all its bits
      are there, and are their code words followed by a proper prefix of some word. */
  lemma DecodedIff(codes: CodeMap, shape: Shape, buffer: seq<byte>, start: uint32, end: uint32, symbols: seq<byte>)
    requires Usable(codes, shape) && [] in shape
    ensures Decoded(shape, buffer, start, end) == Defined(Utf8(symbols))
        <==> (forall i :: 0 <= i < Width(start, end) ==> BitInside(buffer, Position(start, i)))
             && (forall s :: s in symbols ==> s in codes)
             && exists tail :: tail in shape && !IsWord(codes, tail)
                  && Bits(buffer, start, end) == Encode(codes, symbols) + tail
  {
    hide Usable, Walk, Utf8, Bits, IsWord, Encode;
    if BitsInside(buffer, start, end) {
      var bits := Bits(buffer, start, end);
      DecodesIff(codes, shape, bits, symbols);
      var walk := Walk(shape, [], bits);
      if walk.Defined? {
        Utf8Tells(walk.value, symbols);
      }
    }
  }

  lemma CodesAreUsable(t: LengthTable, shape: Shape)
    requires KraftHolds(t) && Realises(shape, Codes(t)) && Codes(t) != map[]
    ensures Usable(Codes(t), shape) && [] in shape
  {
    KraftGivesPrefixFree(t);
    assert OnPath(Codes(t), []);
  }

  /** The round trip: for every table that satisfies the Kraft inequality, every string over its
      symbols and every surrounding bits, decoding exactly the bits of the encoded string in the
      laid-out buffer gives the UTF-8 of the string, if and only if the table has a code at all. */
  lemma HuffmanRoundTrip(t: LengthTable, shape: Shape, before: seq<bool>, symbols: seq<byte>, after: seq<bool>)
    requires KraftHolds(t) && Realises(shape, Codes(t)) && [] in shape
    requires forall s :: s in symbols ==> t[s] != 0
    requires |before| + |Encode(Codes(t), symbols)| < TWO_32
    ensures var code := Encode(Codes(t), symbols);
            Decoded(shape, LayOut(before + code + after), |before|, |before| + |code|) == Defined(Utf8(symbols))
            <==> exists c: byte :: t[c] != 0
  {
    hide Encode, LayOut, Bits, BitsInside, Walk, KraftHolds, Realises, Utf8;
    LaidOutBits(before, Encode(Codes(t), symbols), after);
    WalkIffCoded(t, shape, symbols);
    var walk := Walk(shape, [], Encode(Codes(t), symbols));
    if walk.Defined? {
      Utf8Tells(walk.value, symbols);
    }
  }

  lemma Utf8Tells(a: seq<byte>, b: seq<byte>)
    ensures Utf8(a) == Utf8(b) ==> a == b
  {
    hide Utf8, ReadUtf8;
    Utf8RoundTrip(a);
    Utf8RoundTrip(b);
  }

  lemma LaidOutBits(before: seq<bool>, code: seq<bool>, after: seq<bool>)
    requires |before| + |code| < TWO_32
    ensures BitsInside(LayOut(before + code + after), |before|, |before| + |code|)
    ensures Bits(LayOut(before + code + after), |before|, |before| + |code|) == code
  {
    hide LayOut, BitsInside, Bits;
    LayOutRoundTrip(before + code + after, |before|, |before| + |code|);
    assert (before + code + after)[|before|..|before| + |code|] == code;
  }

  lemma WalkIffCoded(t: LengthTable, shape: Shape, symbols: seq<byte>)
    requires KraftHolds(t) && Realises(shape, Codes(t)) && [] in shape
    requires forall s :: s in symbols ==> t[s] != 0
    ensures Walk(shape, [], Encode(Codes(t), symbols)) == Defined(symbols) <==> exists c: byte :: t[c] != 0
  {
    if c: byte :| t[c] != 0 {
      assert c in Codes(t);
      EncodedWalk(t, shape, symbols);
    } else {
      assert Codes(t) == map[];
      EmptyCodeLeaf(shape, Codes(t));
    }
  }

  lemma EncodedWalk(t: LengthTable, shape: Shape, symbols: seq<byte>)
    requires KraftHolds(t) && Realises(shape, Codes(t)) && [] in shape && Codes(t) != map[]
    requires forall s :: s in symbols ==> t[s] != 0
    ensures Walk(shape, [], Encode(Codes(t), symbols)) == Defined(symbols)
  {
    CodesAreUsable(t, shape);
    RootIsInner(Codes(t), shape);
    WalkEncoded(Codes(t), shape, symbols, []);
    assert Encode(Codes(t), symbols) + [] == Encode(Codes(t), symbols) && symbols + [] == symbols;
  }

  /** Without any code the root is a leaf, so even an empty range emits a character. */
  lemma EmptyCodeLeaf(shape: Shape, codes: CodeMap)
    requires Realises(shape, codes) && codes == map[]
    ensures [] in shape && Walk(shape, [], []) == Defined([0])
  {
    assert OnPath(codes, []) && !OnPath(codes, [] + [false]) && !OnPath(codes, [] + [true]);
    assert !IsWord(codes, []);
  }
}
