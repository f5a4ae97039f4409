/** The Huffman tree on the heap, its construction from the code map, and the bit walk.

    A tree is described by the map from paths to nodes; a path is the sequence of turns from
    the root, `true` for right. Its value is the map from paths to symbols, the shape. */
module Huffman {
  import opened Machine
  import opened CanonicalCode
  import opened PrefixCodes

  class HuffmanTree {
    var c: byte
    var left: HuffmanTree?
    var right: HuffmanTree?

    constructor ()
      ensures c == 0 && left == null && right == null
    {
      c, left, right := 0, null, null;
    }
  }

  type Nodes = map<seq<bool>, HuffmanTree>
  type Shape = map<seq<bool>, byte>

  ghost function Child(nodes: Nodes, p: seq<bool>, bit: bool): HuffmanTree? {
    if p + [bit] in nodes then nodes[p + [bit]] else null
  }

  ghost predicate Linked(root: HuffmanTree, nodes: Nodes)
    reads nodes.Values
  {
    [] in nodes && nodes[[]] == root
    && (forall p {:trigger nodes[p].left} {:trigger nodes[p].right} :: p in nodes ==>
          nodes[p].left == Child(nodes, p, false) && nodes[p].right == Child(nodes, p, true))
    && (forall p, q {:trigger nodes[p], nodes[q]} :: p in nodes && q in nodes && nodes[p] == nodes[q] ==> p == q)
    && forall p {:trigger p[..|p| - 1]} :: p in nodes && p != [] ==> p[..|p| - 1] in nodes
  }

  ghost function ShapeOf(nodes: Nodes): Shape
    reads nodes.Values
  {
    map p | p in nodes :: nodes[p].c
  }

  // ----- what a code map says about the tree

  ghost predicate IsWord(codes: CodeMap, p: seq<bool>) {
    exists s :: s in codes && codes[s] == p
  }

  /** The root, and every prefix of a word. */
  ghost predicate OnPath(codes: CodeMap, p: seq<bool>) {
    p == [] || exists s :: s in codes && IsPrefix(p, codes[s])
  }

  /** The paths are exactly the prefixes of words; a word carries a symbol it encodes; every
      other node keeps the zero it was made with. */
  ghost predicate Realises(shape: Shape, codes: CodeMap) {
    (forall p :: p in shape <==> OnPath(codes, p))
    && forall p :: p in shape ==>
         if IsWord(codes, p) then shape[p] in codes && codes[shape[p]] == p else shape[p] == 0
  }

  predicate Injective(codes: CodeMap) {
    forall a, b :: a in codes && b in codes && codes[a] == codes[b] ==> a == b
  }

  /** However the words are ordered on insertion, the tree is the same. */
  lemma ShapeIsDetermined(codes: CodeMap, one: Shape, two: Shape)
    requires Injective(codes) && Realises(one, codes) && Realises(two, codes)
    ensures one == two
  {
    forall p | p in one
      ensures p in two && one[p] == two[p]
    {
      assert OnPath(codes, p);
    }
    forall p | p in two
      ensures p in one
    {
      assert OnPath(codes, p);
    }
  }

  predicate IsLeaf(shape: Shape, p: seq<bool>) {
    p in shape && p + [false] !in shape && p + [true] !in shape
  }

  /** No path continues past a word of a prefix code. */
  lemma WordEnds(codes: CodeMap, shape: Shape, s: byte, bit: bool)
    requires Realises(shape, codes) && PrefixFree(codes) && s in codes
    ensures codes[s] + [bit] !in shape
  {
  }

  /** A path that is not a word continues. */
  lemma InnerContinues(codes: CodeMap, shape: Shape, p: seq<bool>)
    requires Realises(shape, codes) && codes != map[] && p in shape && !IsWord(codes, p)
    ensures !IsLeaf(shape, p)
  {
    assert OnPath(codes, p);
    var s :| s in codes && IsPrefix(p, codes[s]);
    assert codes[s] != p;
    var bit := codes[s][|p|];
    assert codes[s][..|p| + 1] == p + [bit];
    assert IsPrefix(p + [bit], codes[s]);
    assert OnPath(codes, p + [bit]);
    assert bit || !bit;
  }

  /** In a prefix code the leaves are the words, and the inner nodes their proper prefixes. */
  lemma LeavesAreWords(codes: CodeMap, shape: Shape, p: seq<bool>)
    requires Realises(shape, codes) && PrefixFree(codes) && codes != map[] && p in shape
    ensures IsLeaf(shape, p) <==> IsWord(codes, p)
    ensures IsLeaf(shape, p) ==> shape[p] in codes && codes[shape[p]] == p
  {
    if IsWord(codes, p) {
      var s :| s in codes && codes[s] == p;
      WordEnds(codes, shape, s, false);
      WordEnds(codes, shape, s, true);
    } else {
      InnerContinues(codes, shape, p);
    }
  }

  // ----- building

  function WithPath(shape: Shape, p: seq<bool>): (grown: Shape)
    ensures [] in shape ==> [] in grown
  {
    if p in shape then shape else shape[p := 0]
  }

  function WithPrefixes(shape: Shape, code: seq<bool>, n: nat): (grown: Shape)
    requires n <= |code|
    ensures [] in shape ==> [] in grown
  {
    if n == 0 then shape else WithPath(WithPrefixes(shape, code, n - 1), code[..n])
  }

  /** The shape after one word: its path, and the symbol at its end. */
  function WithCode(shape: Shape, code: seq<bool>, character: byte): (grown: Shape)
    ensures [] in shape ==> [] in grown
  {
    WithPrefixes(shape, code, |code|)[code := character]
  }

  /** The shape of a tree that has a root. */
  type Rooted = s: Shape | [] in s witness map[[] := 0]

  predicate Listed(codes: CodeMap, order: seq<byte>) {
    (forall c :: c in order ==> c in codes) && forall i, j :: 0 <= i < j < |order| ==> order[i] != order[j]
  }

  /** An order a hash map may give its entries in: every symbol once. */
  predicate IsOrder(codes: CodeMap, order: seq<byte>) {
    Listed(codes, order) && forall c :: c in codes ==> c in order
  }

  /** The tree after the words have been inserted in that order. */
  function Built(codes: CodeMap, order: seq<byte>): Rooted
    requires Listed(codes, order)
  {
    if order == [] then map[[] := 0]
    else
      var last := order[|order| - 1];
      WithCode(Built(codes, order[..|order| - 1]), codes[last], last)
  }

  lemma SnocInjective(p: seq<bool>, x: bool, q: seq<bool>, y: bool)
    requires p + [x] == q + [y]
    ensures p == q && x == y
  {
    assert p == (p + [x])[..|p|] && q == (q + [y])[..|q|];
    assert (p + [x])[|p|] == x && (q + [y])[|q|] == y;
  }

  lemma LinkedGrown(nodes: Nodes, path: seq<bool>, bit: bool, child: HuffmanTree)
    ensures var grown := nodes[path + [bit] := child];
            forall p, turn :: p in nodes ==>
              Child(grown, p, turn) == if p == path && turn == bit then child else Child(nodes, p, turn)
  {
    forall p, turn | p in nodes && p + [turn] == path + [bit]
      ensures p == path && turn == bit
    {
      SnocInjective(p, turn, path, bit);
    }
  }

  lemma NoGrandchild(nodes: Nodes, path: seq<bool>, bit: bool, turn: bool)
    requires forall p {:trigger p[..|p| - 1]} :: p in nodes && p != [] ==> p[..|p| - 1] in nodes
    requires path + [bit] !in nodes
    ensures path + [bit] + [turn] !in nodes
  {
    var q := path + [bit] + [turn];
    assert q[..|q| - 1] == path + [bit];
  }

  /** One turn of the inner loop of `build_huffman_tree`: the child is made if it is missing. */
  method Descend(root: HuffmanTree, ghost nodes: Nodes, ghost path: seq<bool>, node: HuffmanTree, bit: bool)
    returns (child: HuffmanTree, ghost grown: Nodes)
    requires Linked(root, nodes) && path in nodes && nodes[path] == node
    modifies node
    ensures Linked(root, grown)
    ensures path + [bit] in grown && grown[path + [bit]] == child
    ensures if path + [bit] in nodes then grown == nodes else grown == nodes[path + [bit] := child] && fresh(child)
    ensures ShapeOf(grown) == WithPath(old(ShapeOf(nodes)), path + [bit])
  {
    grown := nodes;
    if !bit {
      if node.left == null {
        node.left := new HuffmanTree();
        grown := GrowNodes(nodes, path, bit, node.left);
      }
      child := node.left;
    } else {
      if node.right == null {
        node.right := new HuffmanTree();
        grown := GrowNodes(nodes, path, bit, node.right);
      }
      child := node.right;
    }
  }

  ghost method GrowNodes(nodes: Nodes, path: seq<bool>, bit: bool, child: HuffmanTree) returns (grown: Nodes)
    requires path in nodes && path + [bit] !in nodes
    requires forall p {:trigger p[..|p| - 1]} :: p in nodes && p != [] ==> p[..|p| - 1] in nodes
    ensures grown == nodes[path + [bit] := child]
    ensures forall p, turn :: p in nodes ==>
              Child(grown, p, turn) == if p == path && turn == bit then child else Child(nodes, p, turn)
    ensures Child(grown, path + [bit], false) == Child(grown, path + [bit], true) == null
    ensures forall p {:trigger p[..|p| - 1]} :: p in grown && p != [] ==> p[..|p| - 1] in grown
  {
    grown := nodes[path + [bit] := child];
    LinkedGrown(nodes, path, bit, child);
    NoGrandchild(nodes, path, bit, false);
    NoGrandchild(nodes, path, bit, true);
    assert (path + [bit])[..|path|] == path;
  }

  /** One round of the outer loop of `build_huffman_tree`: the path of `code` is made where it is
      missing and its end gets the symbol. */
  method AddCode(root: HuffmanTree, ghost nodes: Nodes, code: seq<bool>, character: byte)
    returns (ghost grown: Nodes)
    requires Linked(root, nodes)
    modifies nodes.Values
    ensures Linked(root, grown)
    ensures forall p :: p in grown ==> grown[p] in nodes.Values || fresh(grown[p])
    ensures ShapeOf(grown) == WithCode(old(ShapeOf(nodes)), code, character)
  {
    grown := nodes;
    var node := root;
    assert code[..0] == [];
    for i := 0 to |code|
      invariant Linked(root, grown)
      invariant forall p :: p in grown ==> grown[p] in nodes.Values || fresh(grown[p])
      invariant code[..i] in grown && node == grown[code[..i]]
      invariant ShapeOf(grown) == WithPrefixes(old(ShapeOf(nodes)), code, i)
    {
      assert code[..i + 1] == code[..i] + [code[i]];
      node, grown := Descend(root, grown, code[..i], node, code[i]);
    }
    assert code[..|code|] == code;
    node.c := character;
  }

  lemma {:induction false} WithPrefixesPaths(shape: Shape, code: seq<bool>, n: nat, p: seq<bool>)
    requires n <= |code| && [] in shape
    ensures p in WithPrefixes(shape, code, n) <==> p in shape || (|p| <= n && IsPrefix(p, code))
    ensures p in WithPrefixes(shape, code, n) ==>
              WithPrefixes(shape, code, n)[p] == if p in shape then shape[p] else 0
  {
    if n == 0 {
      assert |p| == 0 ==> p == [];
    } else {
      WithPrefixesPaths(shape, code, n - 1, p);
    }
  }

  /** One more word in the map, one more path in the tree. */
  lemma AddRealises(shape: Shape, done: CodeMap, code: seq<bool>, character: byte)
    requires Realises(shape, done) && character !in done
    ensures Realises(WithCode(shape, code, character), done[character := code])
  {
    var more := done[character := code];
    var next := WithCode(shape, code, character);
    assert OnPath(done, []);
    forall p
      ensures p in next <==> OnPath(more, p)
      ensures p in next ==> if IsWord(more, p) then next[p] in more && more[next[p]] == p else next[p] == 0
    {
      AddRealisesAt(shape, done, code, character, p);
    }
  }

  lemma AddRealisesAt(shape: Shape, done: CodeMap, code: seq<bool>, character: byte, p: seq<bool>)
    requires Realises(shape, done) && character !in done && [] in shape
    ensures var more, next := done[character := code], WithCode(shape, code, character);
            (p in next <==> OnPath(more, p))
            && (p in next ==> if IsWord(more, p) then next[p] in more && more[next[p]] == p else next[p] == 0)
  {
    var more := done[character := code];
    WithPrefixesPaths(shape, code, |code|, p);
    assert code[..|code|] == code;
    assert more[character] == code;
    assert OnPath(more, p) <==> OnPath(done, p) || IsPrefix(p, code) by {
      if OnPath(done, p) && p != [] {
        var s :| s in done && IsPrefix(p, done[s]);
        assert more[s] == done[s];
      }
    }
    assert IsWord(more, p) <==> IsWord(done, p) || p == code by {
      if IsWord(done, p) {
        var s :| s in done && done[s] == p;
        assert more[s] == done[s];
      }
    }
  }

  /** The tree with nothing but a root. */
  method NewTree() returns (root: HuffmanTree, ghost nodes: Nodes)
    ensures Linked(root, nodes) && ShapeOf(nodes) == map[[] := 0]
    ensures forall p :: p in nodes ==> fresh(nodes[p])
  {
    root := new HuffmanTree();
    nodes := map[[] := root];
  }

  /** The entries of a code map that have been taken. */
  ghost function Taken(codes: CodeMap, order: seq<byte>): CodeMap
    requires Listed(codes, order)
  {
    map c | c in order :: codes[c]
  }

  /** Any order of insertion gives a tree that realises the code map. */
  lemma {:induction false} BuiltRealises(codes: CodeMap, order: seq<byte>)
    requires Listed(codes, order)
    ensures Realises(Built(codes, order), Taken(codes, order))
    ensures IsOrder(codes, order) ==> Realises(Built(codes, order), codes)
  {
    hide Realises, WithCode, Taken, Listed, IsOrder;
    TakenAll(codes, order);
    if order == [] {
      RootRealises(Built(codes, order));
    } else {
      var n := |order| - 1;
      TakenLast(codes, order);
      BuiltRealises(codes, order[..n]);
      AddRealises(Built(codes, order[..n]), Taken(codes, order[..n]), codes[order[n]], order[n]);
    }
  }

  lemma TakenAll(codes: CodeMap, order: seq<byte>)
    requires Listed(codes, order)
    ensures order == [] ==> Taken(codes, order) == map[]
    ensures IsOrder(codes, order) ==> Taken(codes, order) == codes
  {
  }

  lemma TakenLast(codes: CodeMap, order: seq<byte>)
    requires Listed(codes, order) && order != []
    ensures var n := |order| - 1;
            Listed(codes, order[..n]) && order[n] in codes && order[n] !in Taken(codes, order[..n])
            && Taken(codes, order) == Taken(codes, order[..n])[order[n] := codes[order[n]]]
  {
  }

  lemma RootRealises(shape: Shape)
    requires shape == map[[] := 0]
    ensures Realises(shape, map[])
  {
  }

  lemma BuiltNext(codes: CodeMap, order: seq<byte>, character: byte)
    requires Listed(codes, order) && character in codes && character !in order
    ensures Listed(codes, order + [character])
    ensures Built(codes, order + [character]) == WithCode(Built(codes, order), codes[character], character)
  {
    assert (order + [character])[..|order|] == order;
  }

  /** `build_huffman_tree`, the codes taken in any order: a fresh tree, the one that order builds. */
  method BuildFromCodes(codes: CodeMap) returns (root: HuffmanTree, ghost nodes: Nodes)
    ensures Linked(root, nodes)
    ensures exists order: seq<byte> :: IsOrder(codes, order) && ShapeOf(nodes) == Built(codes, order)
    ensures Realises(ShapeOf(nodes), codes)
    ensures forall p :: p in nodes ==> fresh(nodes[p])
  {
    hide Realises, Linked, ShapeOf, Built, WithCode;
    root, nodes := NewTree();
    var remaining := codes.Keys;
    ghost var order: seq<byte> := [];
    NothingBuilt(codes);
    while remaining != {}
      invariant Linked(root, nodes)
      invariant Listed(codes, order) && forall c :: c in codes ==> (c in remaining <==> c !in order)
      invariant remaining <= codes.Keys && ShapeOf(nodes) == Built(codes, order)
      invariant forall p :: p in nodes ==> fresh(nodes[p])
      decreases |remaining|
    {
      var character :| character in remaining;
      BuiltNext(codes, order, character);
      nodes := AddCode(root, nodes, codes[character], character);
      order := order + [character];
      remaining := remaining - {character};
    }
    assert IsOrder(codes, order);
    BuiltRealises(codes, order);
  }

  lemma NothingBuilt(codes: CodeMap)
    ensures Built(codes, []) == map[[] := 0]
  {
  }

  /** `build_huffman_tree` on a table of lengths. */
  method BuildHuffmanTree(t: LengthTable) returns (root: HuffmanTree, ghost nodes: Nodes)
    ensures Linked(root, nodes)
    ensures exists order: seq<byte> :: IsOrder(Codes(t), order) && ShapeOf(nodes) == Built(Codes(t), order)
    ensures Realises(ShapeOf(nodes), Codes(t))
    ensures forall p :: p in nodes ==> fresh(nodes[p])
  {
    var codes := GenerateCodes(t);
    root, nodes := BuildFromCodes(codes);
  }
}
