/** The string branch of `readDictionary`: pages, record handles and data ids. */
module Dictionary {
  import opened Machine
  import opened CanonicalCode
  import opened PrefixCodes
  import opened EncodeArray
  import opened Huffman
  import opened HuffmanDecode

  type Text = seq<byte>

  /** The 128 bytes a compressed page keeps its code lengths in. */
  type EncodeArrayBytes = s: seq<byte> | |s| == 128 witness seq(128, _ => 0)

  datatype Page =
    | Compressed(encodeArray: EncodeArrayBytes, totalBits: uint32, buffer: seq<byte>)
    | Plain(characters: seq<byte>)

  datatype Handle = Handle(offset: uint32, pageId: uint32)

  // ----- the tree of a table as a value

  /** The symbols below `n` that have a word, in symbol order. */
  function SymbolOrder(codes: CodeMap, n: nat): (order: seq<byte>)
    requires n <= 256
    ensures Listed(codes, order) && forall c :: c in order <==> c in codes && c < n
  {
    if n == 0 then []
    else if n - 1 in codes then SymbolOrder(codes, n - 1) + [n - 1]
    else SymbolOrder(codes, n - 1)
  }

  function TreeOf(t: LengthTable): Rooted {
    Built(Codes(t), SymbolOrder(Codes(t), |t|))
  }

  /** A tree that some iteration order of the hash map builds from the table. */
  ghost predicate BuiltFor(t: LengthTable, tree: Rooted) {
    exists order: seq<byte> :: IsOrder(Codes(t), order) && tree == Built(Codes(t), order)
  }

  lemma BuiltForRealises(t: LengthTable, tree: Rooted)
    requires BuiltFor(t, tree)
    ensures Realises(tree, Codes(t))
  {
    hide Realises, Built;
    var order: seq<byte> :| IsOrder(Codes(t), order) && tree == Built(Codes(t), order);
    BuiltRealises(Codes(t), order);
  }

  lemma TreeOfIsBuilt(t: LengthTable)
    ensures BuiltFor(t, TreeOf(t))
  {
    hide Built;
    assert IsOrder(Codes(t), SymbolOrder(Codes(t), |t|));
  }

  lemma PrefixFreeInjective(codes: CodeMap)
    requires PrefixFree(codes)
    ensures Injective(codes)
  {
    forall a, b | a in codes && b in codes && a != b
      ensures codes[a] != codes[b]
    {
      assert !IsPrefix(codes[a], codes[b]);
    }
  }

  /** Under the Kraft inequality the built tree is the one of the table, however it was built. */
  lemma BuiltIsTree(t: LengthTable, tree: Rooted)
    requires KraftHolds(t) && BuiltFor(t, tree)
    ensures tree == TreeOf(t)
  {
    hide Realises, BuiltFor, TreeOf;
    KraftGivesPrefixFree(t);
    PrefixFreeInjective(Codes(t));
    BuiltForRealises(t, tree);
    TreeOfIsBuilt(t);
    BuiltForRealises(t, TreeOf(t));
    ShapeIsDetermined(Codes(t), tree, TreeOf(t));
  }

  // ----- what the pages say

  /** The offsets of one page, in the order of the handles. */
  function OffsetsOf(handles: seq<Handle>, page: int): seq<uint32> {
    if handles == [] then []
    else OffsetsOf(handles[..|handles| - 1], page)
         + if ToInt32(handles[|handles| - 1].pageId) == page then [handles[|handles| - 1].offset] else []
  }

  function EndOf(offsets: seq<uint32>, total: uint32, i: nat): uint32
    requires i < |offsets|
  {
    if i + 1 < |offsets| then offsets[i + 1] else total
  }

  function TextAt(tree: Rooted, page: Page, offsets: seq<uint32>, i: nat): Outcome<Text>
    requires page.Compressed? && i < |offsets|
  {
    Decoded(tree, page.buffer, offsets[i], EndOf(offsets, page.totalBits, i))
  }

  /** The texts of the first `n` ranges. */
  function Texts(tree: Rooted, page: Page, offsets: seq<uint32>, n: nat): Outcome<seq<Text>>
    requires page.Compressed? && n <= |offsets|
  {
    if n == 0 then Defined([])
    else match (Texts(tree, page, offsets, n - 1), TextAt(tree, page, offsets, n - 1))
      case (Defined(front), Defined(last)) => Defined(front + [last])
      case _ => Undefined
  }

  function FirstNul(s: seq<byte>): (n: nat)
    ensures n <= |s| && 0 !in s[..n] && (n < |s| ==> s[n] == 0)
  {
    if s == [] || s[0] == 0 then 0
    else
      assert s[..1 + FirstNul(s[1..])] == [s[0]] + s[1..][..FirstNul(s[1..])];
      1 + FirstNul(s[1..])
  }

  /** The tokens `getline` takes from a buffer: each ends at a NUL, the last also at the end. */
  function SplitNul(s: seq<byte>): seq<Text> {
    if s == [] then []
    else
      var n := FirstNul(s);
      [s[..n]] + if n < |s| then SplitNul(s[n + 1..]) else []
  }

  /** The table of a stored array. */
  function TableOf(encodeArray: EncodeArrayBytes): LengthTable {
    seq(256, k requires 0 <= k < 256 => if k % 2 == 0 then encodeArray[k / 2] % 0x10 else encodeArray[k / 2] / 0x10)
  }

  /** A tree that can come out of the page's table. */
  ghost predicate TreeOfPage(page: Page, tree: Rooted) {
    page.Compressed? ==> BuiltFor(TableOf(page.encodeArray), tree)
  }

  ghost predicate TreesOf(pages: seq<Page>, trees: seq<Rooted>) {
    |trees| == |pages| && forall k :: 0 <= k < |pages| ==> TreeOfPage(pages[k], trees[k])
  }

  function PageTexts(page: Page, tree: Rooted, offsets: seq<uint32>): Outcome<seq<Text>> {
    match page
    case Compressed(_, _, _) => Texts(tree, page, offsets, |offsets|)
    case Plain(characters) => Defined(SplitNul(characters))
  }

  /** The texts of the first `n` pages, page by page. */
  function PagesTexts(pages: seq<Page>, trees: seq<Rooted>, handles: seq<Handle>, n: nat): Outcome<seq<Text>>
    requires n <= |pages| == |trees|
  {
    if n == 0 then Defined([])
    else match (PagesTexts(pages, trees, handles, n - 1),
                PageTexts(pages[n - 1], trees[n - 1], OffsetsOf(handles, n - 1)))
      case (Defined(front), Defined(last)) => Defined(front + last)
      case _ => Undefined
  }

  // ----- the table being filled

  /** `hashtable` and the `int` the next key is made from. */
  datatype Filled = Filled(table: map<uint64, Text>, index: int)

  /** `hashtable[index++] = text`: the key is the `int` converted to 64 bits; counting past the
      last `int` is undefined. */
  function Put(d: Filled, text: Text): Outcome<Filled> {
    if d.index >= TWO_31 - 1 then Undefined else Defined(Filled(d.table[Wrap64(d.index) := text], d.index + 1))
  }

  function PutAll(d: Filled, texts: seq<Text>): Outcome<Filled> {
    if texts == [] then Defined(d)
    else match PutAll(d, texts[..|texts| - 1])
      case Defined(e) => Put(e, texts[|texts| - 1])
      case Undefined => Undefined
  }

  function Fill(d: Filled, o: Outcome<seq<Text>>): Outcome<Filled> {
    match o
    case Defined(texts) => PutAll(d, texts)
    case Undefined => Undefined
  }

  function Then(o: Outcome<Filled>, texts: seq<Text>): Outcome<Filled> {
    match o
    case Defined(d) => PutAll(d, texts)
    case Undefined => Undefined
  }

  lemma PutSnoc(d: Filled, texts: seq<Text>, text: Text)
    ensures PutAll(d, texts + [text])
         == match PutAll(d, texts) case Defined(e) => Put(e, text) case Undefined => Undefined
  {
    assert (texts + [text])[..|texts|] == texts;
  }

  lemma {:induction false} PutAppend(d: Filled, a: seq<Text>, b: seq<Text>)
    ensures PutAll(d, a + b) == Then(PutAll(d, a), b)
  {
    if b == [] {
      assert a + b == a;
    } else {
      var front, last := b[..|b| - 1], b[|b| - 1];
      PutAppend(d, a, front);
      assert a + b == a + front + [last];
      PutSnoc(d, a + front, last);
    }
  }

  // ----- the source's loops

  /** The handles by page. */
  method GroupHandles(handles: seq<Handle>) returns (byPage: map<int, seq<uint32>>)
    ensures forall p :: (if p in byPage then byPage[p] else []) == OffsetsOf(handles, p)
  {
    byPage := map[];
    for k := 0 to |handles|
      invariant forall p :: (if p in byPage then byPage[p] else []) == OffsetsOf(handles[..k], p)
    {
      assert handles[..k + 1][..k] == handles[..k];
      var page := ToInt32(handles[k].pageId);
      var before := if page in byPage then byPage[page] else [];
      byPage := byPage[page := before + [handles[k].offset]];
    }
    assert handles[..|handles|] == handles;
  }

  lemma TableIsUnpacked(encodeArray: EncodeArrayBytes, full: LengthTable)
    requires PackedNibbles(full, 128) == encodeArray
    ensures full == TableOf(encodeArray)
  {
    forall k | 0 <= k < 256
      ensures full[k] == TableOf(encodeArray)[k]
    {
      assert PackedNibbles(full, 128)[k / 2] == encodeArray[k / 2];
    }
  }

  lemma {:induction false} StaysUndefined(d: Filled, tree: Rooted, page: Page, offsets: seq<uint32>, n: nat, m: nat)
    requires page.Compressed? && n <= m <= |offsets|
    requires Fill(d, Texts(tree, page, offsets, n)) == Undefined
    ensures Fill(d, Texts(tree, page, offsets, m)) == Undefined
  {
    hide TextAt;
    if n < m {
      StaysUndefined(d, tree, page, offsets, n, m - 1);
      TextsStep(d, tree, page, offsets, m - 1);
    }
  }

  lemma TextsStep(d: Filled, tree: Rooted, page: Page, offsets: seq<uint32>, n: nat)
    requires page.Compressed? && n < |offsets|
    ensures Fill(d, Texts(tree, page, offsets, n + 1))
         == match (Fill(d, Texts(tree, page, offsets, n)), TextAt(tree, page, offsets, n))
            case (Defined(e), Defined(text)) => Put(e, text)
            case _ => Undefined
  {
    hide TextAt;
    var front, last := Texts(tree, page, offsets, n), TextAt(tree, page, offsets, n);
    if front.Defined? && last.Defined? {
      PutSnoc(d, front.value, last.value);
    }
  }

  /** A compressed page: each handle's range is decoded and stored under the next key. */
  method FillCompressed(page: Page, offsets: seq<uint32>, d: Filled) returns (r: Outcome<Filled>)
    requires page.Compressed?
    ensures exists tree: Rooted :: TreeOfPage(page, tree) && r == Fill(d, PageTexts(page, tree, offsets))
  {
    hide Texts, TableOf, Linked, ShapeOf, Realises, Decoded, Built, IsOrder;
    var fullEncodeArray := DecompressEncodeArray(page.encodeArray);
    TableIsUnpacked(page.encodeArray, fullEncodeArray);
    var tree, nodes := BuildHuffmanTree(fullEncodeArray);
    RootInShape(tree, nodes);
    ghost var shape: Rooted := ShapeOf(nodes);
    assert TreeOfPage(page, shape);
    NoTexts(d, shape, page, offsets);
    var filled := d;
    for i := 0 to |offsets|
      invariant Linked(tree, nodes) && ShapeOf(nodes) == shape
      invariant Fill(d, Texts(shape, page, offsets, i)) == Defined(filled)
    {
      var startBit := offsets[i];
      var endBit := if i + 1 < |offsets| then offsets[i + 1] else page.totalBits;
      var decompressed := DecodeSubstring(page.buffer, tree, nodes, startBit, endBit);
      TextsStep(d, shape, page, offsets, i);
      if decompressed.Undefined? || filled.index >= TWO_31 - 1 {
        StaysUndefined(d, shape, page, offsets, i + 1, |offsets|);
        return Undefined;
      }
      filled := Filled(filled.table[Wrap64(filled.index) := decompressed.value], filled.index + 1);
    }
    r := Defined(filled);
  }

  lemma RootInShape(tree: HuffmanTree, nodes: Nodes)
    requires Linked(tree, nodes)
    ensures [] in ShapeOf(nodes)
  {
  }

  lemma NoTexts(d: Filled, tree: Rooted, page: Page, offsets: seq<uint32>)
    requires page.Compressed?
    ensures Fill(d, Texts(tree, page, offsets, 0)) == Defined(d)
  {
  }

  /** A plain page: each token goes under the next key. */
  method FillPlain(characters: seq<byte>, d: Filled) returns (r: Outcome<Filled>)
    ensures r == PutAll(d, SplitNul(characters))
  {
    hide PutAll, Put;
    var filled := d;
    var rest := characters;
    ghost var done: seq<Text> := [];
    PutNothing(d);
    assert [] + SplitNul(characters) == SplitNul(characters);
    while rest != []
      invariant PutAll(d, done) == Defined(filled)
      invariant SplitNul(characters) == done + SplitNul(rest)
      decreases |rest|
    {
      var n := FirstNul(rest);
      var token := rest[..n];
      rest := if n < |rest| then rest[n + 1..] else [];
      PutAppend(d, done, [token]);
      PutOne(filled, token);
      done := done + [token];
      assert SplitNul(characters) == done + SplitNul(rest);
      if filled.index >= TWO_31 - 1 {
        PutAppend(d, done, SplitNul(rest));
        return Undefined;
      }
      filled := Filled(filled.table[Wrap64(filled.index) := token], filled.index + 1);
    }
    assert done + [] == done;
    r := Defined(filled);
  }

  lemma PutNothing(d: Filled)
    ensures PutAll(d, []) == Defined(d)
  {
  }

  lemma PutOne(d: Filled, text: Text)
    ensures PutAll(d, [text])
         == if d.index >= TWO_31 - 1 then Undefined
            else Defined(Filled(d.table[Wrap64(d.index) := text], d.index + 1))
  {
    assert [text][..0] == [];
  }

  lemma {:induction false} PagesStayUndefined(d: Filled, pages: seq<Page>, trees: seq<Rooted>, handles: seq<Handle>,
                                             n: nat, m: nat)
    requires n <= m <= |pages| == |trees| && Fill(d, PagesTexts(pages, trees, handles, n)) == Undefined
    ensures Fill(d, PagesTexts(pages, trees, handles, m)) == Undefined
  {
    hide PageTexts, PutAll;
    if n < m {
      PagesStayUndefined(d, pages, trees, handles, n, m - 1);
      PagesStep(d, pages, trees, handles, m - 1);
    }
  }

  lemma PagesStep(d: Filled, pages: seq<Page>, trees: seq<Rooted>, handles: seq<Handle>, n: nat)
    requires n < |pages| == |trees|
    ensures Fill(d, PagesTexts(pages, trees, handles, n + 1))
         == match Fill(d, PagesTexts(pages, trees, handles, n))
            case Defined(e) => Fill(e, PageTexts(pages[n], trees[n], OffsetsOf(handles, n)))
            case Undefined => Undefined
  {
    hide PageTexts, PutAll;
    var front, last := PagesTexts(pages, trees, handles, n), PageTexts(pages[n], trees[n], OffsetsOf(handles, n));
    if front.Defined? && last.Defined? {
      PutAppend(d, front.value, last.value);
    }
  }

  /** The first `n` pages are read by their own trees. */
  lemma {:induction false} EarlierPages(pages: seq<Page>, one: seq<Rooted>, two: seq<Rooted>, handles: seq<Handle>,
                                        n: nat)
    requires n <= |pages| == |one| == |two| && one[..n] == two[..n]
    ensures PagesTexts(pages, one, handles, n) == PagesTexts(pages, two, handles, n)
  {
    hide PageTexts;
    if n > 0 {
      assert one[..n - 1] == one[..n][..n - 1] == two[..n][..n - 1] == two[..n - 1];
      assert one[n - 1] == one[..n][n - 1] == two[..n][n - 1] == two[n - 1];
      EarlierPages(pages, one, two, handles, n - 1);
    }
  }

  lemma TreeReplaced(pages: seq<Page>, trees: seq<Rooted>, handles: seq<Handle>, n: nat, tree: Rooted)
    requires TreesOf(pages, trees) && n < |pages| && TreeOfPage(pages[n], tree)
    ensures TreesOf(pages, trees[n := tree])
    ensures PagesTexts(pages, trees[n := tree], handles, n) == PagesTexts(pages, trees, handles, n)
  {
    hide TreeOfPage, PagesTexts;
    EarlierPages(pages, trees, trees[n := tree], handles, n);
  }

  lemma NoPages(d: Filled, pages: seq<Page>, trees: seq<Rooted>, handles: seq<Handle>)
    requires |trees| == |pages|
    ensures Fill(d, PagesTexts(pages, trees, handles, 0)) == Defined(d)
  {
    PutNothing(d);
  }

  /** Some tree for every page. */
  lemma SomeTrees(pages: seq<Page>) returns (trees: seq<Rooted>)
    ensures |trees| == |pages| && TreesOf(pages, trees)
  {
    trees := seq(|pages|, k requires 0 <= k < |pages| =>
                   if pages[k].Compressed? then TreeOf(TableOf(pages[k].encodeArray)) else map[[] := 0]);
    forall k | 0 <= k < |pages|
      ensures TreeOfPage(pages[k], trees[k])
    {
      if pages[k].Compressed? {
        TreeOfIsBuilt(TableOf(pages[k].encodeArray));
      }
    }
  }

  method FillPage(page: Page, offsets: seq<uint32>, d: Filled) returns (r: Outcome<Filled>)
    ensures exists tree: Rooted :: TreeOfPage(page, tree) && r == Fill(d, PageTexts(page, tree, offsets))
  {
    if page.Compressed? {
      r := FillCompressed(page, offsets, d);
    } else {
      r := FillPlain(page.characters, d);
      assert TreeOfPage(page, map[[] := 0]);
    }
  }

  /** What the pages, each read by a tree, make of the table. */
  function DictionaryFrom(pages: seq<Page>, trees: seq<Rooted>, handles: seq<Handle>, minDataId: uint64)
    : Outcome<map<uint64, Text>>
    requires |trees| == |pages|
  {
    match Fill(Filled(map[], ToInt32(minDataId)), PagesTexts(pages, trees, handles, |pages|))
    case Defined(d) => Defined(d.table)
    case Undefined => Undefined
  }

  /** The string branch of `readDictionary`: the texts of the pages, each read by a tree of its table. */
  method ReadDictionary(pages: seq<Page>, handles: seq<Handle>, minDataId: uint64)
    returns (r: Outcome<map<uint64, Text>>)
    ensures exists trees: seq<Rooted> ::
              TreesOf(pages, trees) && |trees| == |pages| && r == DictionaryFrom(pages, trees, handles, minDataId)
  {
    hide PageTexts, PutAll, TreesOf, PagesTexts;
    ghost var empty := Filled(map[], ToInt32(minDataId));
    var filled := Filled(map[], ToInt32(minDataId));
    var recordHandlesMap := GroupHandles(handles);
    ghost var trees: seq<Rooted> := SomeTrees(pages);
    NoPages(empty, pages, trees, handles);
    for pageId := 0 to |pages|
      invariant |trees| == |pages| && TreesOf(pages, trees)
      invariant Fill(empty, PagesTexts(pages, trees, handles, pageId)) == Defined(filled)
    {
      var offsets := if pageId in recordHandlesMap then recordHandlesMap[pageId] else [];
      var next := FillPage(pages[pageId], offsets, filled);
      ghost var tree: Rooted :| TreeOfPage(pages[pageId], tree)
                                && next == Fill(filled, PageTexts(pages[pageId], tree, offsets));
      TreeReplaced(pages, trees, handles, pageId, tree);
      trees := trees[pageId := tree];
      PagesStep(empty, pages, trees, handles, pageId);
      if next.Undefined? {
        PagesStayUndefined(empty, pages, trees, handles, pageId + 1, |pages|);
        assert TreesOf(pages, trees);
        return Undefined;
      }
      filled := next.value;
    }
    r := Defined(filled.table);
  }
}
