/** A written dictionary is read back: the k-th string gets the k-th data id. */
module DictionaryRoundTrip {
  import opened Machine
  import opened CanonicalCode
  import opened EncodeArray
  import opened BitStream
  import opened Latin1
  import opened Huffman
  import opened HuffmanDecode
  import opened Dictionary

  /** The content of a page: Latin-1 strings under a code, or strings kept as they are in a buffer
      that is allocated larger by some unused zeros. */
  datatype Content = Coded(t: LengthTable, strings: seq<Text>) | Raw(strings: seq<Text>, padding: nat)

  // ----- the writer

  predicate Encodable(t: LengthTable, strings: seq<Text>) {
    forall i :: 0 <= i < |strings| ==> forall s :: s in strings[i] ==> t[s] != 0
  }

  /** The code words of all strings, without gaps. */
  function EncodeAll(t: LengthTable, strings: seq<Text>): seq<bool>
    requires Encodable(t, strings)
  {
    if strings == [] then []
    else EncodeAll(t, strings[..|strings| - 1]) + Encode(Codes(t), strings[|strings| - 1])
  }

  /** Each string ends with a NUL. */
  function JoinNul(strings: seq<Text>): seq<byte> {
    if strings == [] then [] else strings[0] + [0] + JoinNul(strings[1..])
  }

  predicate Writable(c: Content) {
    match c
    case Coded(t, strings) =>
      KraftHolds(t) && Codes(t) != map[] && Encodable(t, strings) && |EncodeAll(t, strings)| < TWO_32
    case Raw(strings, _) => forall i :: 0 <= i < |strings| ==> 0 !in strings[i]
  }

  function PageOf(c: Content): Page
    requires Writable(c)
  {
    match c
    case Coded(t, strings) =>
      Compressed(PackedNibbles(t, 128), |EncodeAll(t, strings)|, LayOut(EncodeAll(t, strings)))
    case Raw(strings, padding) => Plain(JoinNul(strings) + Zeros(padding))
  }

  function Zeros(n: nat): seq<byte> {
    if n == 0 then [] else [0] + Zeros(n - 1)
  }

  function Empties(n: nat): (texts: seq<Text>)
    ensures |texts| == n && forall i :: 0 <= i < n ==> texts[i] == []
  {
    if n == 0 then [] else [[]] + Empties(n - 1)
  }

  /** The strings a page holds. */
  function Held(c: Content): seq<Text> {
    match c
    case Coded(_, strings) => seq(|strings|, i requires 0 <= i < |strings| => Utf8(strings[i]))
    case Raw(strings, _) => strings
  }

  /** The strings a reader sees: every unused zero ends an empty one. */
  function StringsOf(c: Content): seq<Text> {
    match c
    case Coded(_, _) => Held(c)
    case Raw(strings, padding) => strings + Empties(padding)
  }

  /** The handles of a coded page point at the first bits of its strings, in order. */
  predicate Points(c: Content, offsets: seq<uint32>)
    requires Writable(c)
  {
    c.Coded? ==>
      |offsets| == |c.strings|
      && forall i :: 0 <= i < |offsets| ==> offsets[i] == StartOf(c.t, c.strings, i)
  }

  function StartOf(t: LengthTable, strings: seq<Text>, i: nat): nat
    requires Encodable(t, strings) && i <= |strings|
  {
    |EncodeAll(t, strings[..i])|
  }

  // ----- one page

  lemma {:induction false} EncodeSplit(t: LengthTable, strings: seq<Text>, i: nat) returns (rest: seq<bool>)
    requires Encodable(t, strings) && i <= |strings|
    ensures Encodable(t, strings[..i])
    ensures EncodeAll(t, strings) == EncodeAll(t, strings[..i]) + rest
    decreases |strings|
  {
    if i == |strings| {
      rest := [];
      assert strings[..i] == strings;
    } else {
      var n := |strings| - 1;
      rest := EncodeSplit(t, strings[..n], i);
      assert strings[..n][..i] == strings[..i];
      rest := rest + Encode(Codes(t), strings[n]);
    }
  }

  /** The range of the i-th handle holds exactly the code words of the i-th string. */
  lemma RangeOfString(c: Content, offsets: seq<uint32>, i: nat)
    requires Writable(c) && c.Coded? && Points(c, offsets) && i < |offsets|
    ensures var page := PageOf(c);
            BitsInside(page.buffer, offsets[i], EndOf(offsets, page.totalBits, i))
            && Bits(page.buffer, offsets[i], EndOf(offsets, page.totalBits, i)) == Encode(Codes(c.t), c.strings[i])
  {
    hide LayOut, Bits, BitsInside, Encode;
    var upTo := c.strings[..i + 1];
    var rest := EncodeSplit(c.t, c.strings, i + 1);
    assert upTo[..i] == c.strings[..i];
    assert c.strings[..|c.strings|] == c.strings;
    assert EndOf(offsets, PageOf(c).totalBits, i) == StartOf(c.t, c.strings, i + 1);
    LaidOutBits(EncodeAll(c.t, c.strings[..i]), Encode(Codes(c.t), c.strings[i]), rest);
  }

  lemma TextOfString(c: Content, tree: Rooted, offsets: seq<uint32>, i: nat)
    requires Writable(c) && c.Coded? && Realises(tree, Codes(c.t)) && Points(c, offsets) && i < |offsets|
    ensures TextAt(tree, PageOf(c), offsets, i) == Defined(Utf8(c.strings[i]))
  {
    hide PageOf, Bits, BitsInside, Encode, Walk, Realises;
    RangeOfString(c, offsets, i);
    EncodedWalk(c.t, tree, c.strings[i]);
  }

  lemma NextString(c: Content, n: nat)
    requires c.Coded? && 0 < n <= |c.strings|
    ensures |StringsOf(c)| == |c.strings|
    ensures StringsOf(c)[..n] == StringsOf(c)[..n - 1] + [Utf8(c.strings[n - 1])]
  {
    hide Utf8;
  }

  lemma {:induction false} TextsOfPage(c: Content, tree: Rooted, offsets: seq<uint32>, n: nat)
    requires Writable(c) && c.Coded? && Realises(tree, Codes(c.t)) && Points(c, offsets) && n <= |offsets|
    ensures Texts(tree, PageOf(c), offsets, n) == Defined(StringsOf(c)[..n])
  {
    hide PageOf, TextAt, Realises, StringsOf, EncodeAll;
    if n == 0 {
    } else {
      TextsOfPage(c, tree, offsets, n - 1);
      TextOfString(c, tree, offsets, n - 1);
      NextString(c, n);
    }
  }

  lemma FirstNulIs(s: seq<byte>, n: nat)
    requires n < |s| && s[n] == 0 && 0 !in s[..n]
    ensures FirstNul(s) == n
  {
  }

  lemma SplitFirst(first: Text, rest: seq<byte>)
    requires 0 !in first
    ensures SplitNul(first + [0] + rest) == [first] + SplitNul(rest)
  {
    hide FirstNul;
    var s := first + [0] + rest;
    assert s[..|first|] == first && s[|first| + 1..] == rest;
    FirstNulIs(s, |first|);
  }

  lemma {:induction false} ZerosSplit(n: nat)
    ensures SplitNul(Zeros(n)) == Empties(n)
  {
    if n == 0 {
    } else {
      SplitFirst([], Zeros(n - 1));
      assert [] + [0] + Zeros(n - 1) == Zeros(n);
      ZerosSplit(n - 1);
    }
  }

  /** Strings that end with a NUL each are split back, and every zero after them gives an empty one. */
  lemma {:induction false} NulsSplit(strings: seq<Text>, padding: nat)
    requires forall i :: 0 <= i < |strings| ==> 0 !in strings[i]
    ensures SplitNul(JoinNul(strings) + Zeros(padding)) == strings + Empties(padding)
  {
    hide SplitNul, Empties, Zeros;
    var zeros, empties := Zeros(padding), Empties(padding);
    if strings == [] {
      assert JoinNul(strings) + zeros == zeros && strings + empties == empties;
      ZerosSplit(padding);
    } else {
      var first, rest := strings[0], strings[1..];
      SplitFirst(first, JoinNul(rest) + zeros);
      assert JoinNul(strings) + zeros == first + [0] + (JoinNul(rest) + zeros);
      NulsSplit(rest, padding);
      assert [first] + (rest + empties) == strings + empties;
    }
  }

  /** A written page reads as its strings, whichever tree its table gave. */
  lemma PageRoundTrip(c: Content, tree: Rooted, offsets: seq<uint32>)
    requires Writable(c) && Points(c, offsets) && TreeOfPage(PageOf(c), tree)
    ensures PageTexts(PageOf(c), tree, offsets) == Defined(StringsOf(c))
  {
    hide Texts, KraftHolds, TableOf, EncodeAll, Encode, LayOut, Realises, BuiltFor;
    match c
    case Coded(t, strings) =>
      TableIsUnpacked(PackedNibbles(t, 128), t);
      BuiltForRealises(t, tree);
      TextsOfPage(c, tree, offsets, |offsets|);
      assert StringsOf(c)[..|offsets|] == StringsOf(c);
    case Raw(strings, padding) =>
      NulsSplit(strings, padding);
  }

  // ----- all pages

  function AllStrings(contents: seq<Content>): seq<Text> {
    if contents == [] then []
    else AllStrings(contents[..|contents| - 1]) + StringsOf(contents[|contents| - 1])
  }

  /** Pages and handles as written; the handles of different pages may be interleaved at will. */
  predicate Written(contents: seq<Content>, pages: seq<Page>, handles: seq<Handle>) {
    |pages| == |contents|
    && forall k :: 0 <= k < |contents| ==>
         Writable(contents[k]) && pages[k] == PageOf(contents[k]) && Points(contents[k], OffsetsOf(handles, k))
  }

  lemma {:induction false} PagesRoundTrip(contents: seq<Content>, pages: seq<Page>, trees: seq<Rooted>,
                                          handles: seq<Handle>, n: nat)
    requires Written(contents, pages, handles) && TreesOf(pages, trees) && n <= |pages|
    ensures PagesTexts(pages, trees, handles, n) == Defined(AllStrings(contents[..n]))
  {
    hide PageOf, PageTexts, TreeOfPage, Points, Writable, StringsOf;
    if n == 0 {
    } else {
      PagesRoundTrip(contents, pages, trees, handles, n - 1);
      PageRoundTrip(contents[n - 1], trees[n - 1], OffsetsOf(handles, n - 1));
      assert contents[..n][..n - 1] == contents[..n - 1];
    }
  }

  // ----- every list of contents can be written

  lemma StartFits(t: LengthTable, strings: seq<Text>, i: nat)
    requires Encodable(t, strings) && i <= |strings|
    ensures StartOf(t, strings, i) <= |EncodeAll(t, strings)|
  {
    var rest := EncodeSplit(t, strings, i);
  }

  /** The handles of one page: the first bits of its strings, in order. */
  function HandlesOfPage(c: Content, page: uint32): (handles: seq<Handle>)
    requires Writable(c)
    ensures forall i :: 0 <= i < |handles| ==> handles[i].pageId == page
  {
    match c
    case Coded(t, strings) =>
      seq(|strings|, i requires 0 <= i < |strings| => (StartFits(t, strings, i); Handle(StartOf(t, strings, i), page)))
    case Raw(_, _) => []
  }

  function HandlesOf(contents: seq<Content>): seq<Handle>
    requires |contents| < TWO_31 && forall k :: 0 <= k < |contents| ==> Writable(contents[k])
  {
    if contents == [] then []
    else
      var n := |contents| - 1;
      HandlesOf(contents[..n]) + HandlesOfPage(contents[n], n)
  }

  function PagesOf(contents: seq<Content>): seq<Page>
    requires forall k :: 0 <= k < |contents| ==> Writable(contents[k])
  {
    seq(|contents|, k requires 0 <= k < |contents| => PageOf(contents[k]))
  }

  function Offsets(handles: seq<Handle>): seq<uint32> {
    seq(|handles|, i requires 0 <= i < |handles| => handles[i].offset)
  }

  lemma {:induction false} OffsetsAppend(a: seq<Handle>, b: seq<Handle>, page: int)
    ensures OffsetsOf(a + b, page) == OffsetsOf(a, page) + OffsetsOf(b, page)
  {
    if b == [] {
      assert a + b == a;
    } else {
      OffsetsAppend(a, b[..|b| - 1], page);
      assert (a + b)[..|a + b| - 1] == a + b[..|b| - 1];
    }
  }

  lemma {:induction false} OffsetsOfOnePage(handles: seq<Handle>, id: nat, page: int)
    requires id < TWO_31 && forall i :: 0 <= i < |handles| ==> handles[i].pageId == id
    ensures OffsetsOf(handles, page) == if page == id then Offsets(handles) else []
  {
    if handles != [] {
      OffsetsOfOnePage(handles[..|handles| - 1], id, page);
      assert Offsets(handles) == Offsets(handles[..|handles| - 1]) + [handles[|handles| - 1].offset];
    }
  }

  lemma {:induction false} HandlesPoint(contents: seq<Content>, k: nat)
    requires |contents| < TWO_31 && forall j :: 0 <= j < |contents| ==> Writable(contents[j])
    ensures OffsetsOf(HandlesOf(contents), k)
         == if k < |contents| then Offsets(HandlesOfPage(contents[k], k)) else []
  {
    hide Writable, HandlesOfPage, OffsetsOf, Offsets;
    if contents == [] {
      NoHandles(k);
    } else {
      var n := |contents| - 1;
      HandlesPoint(contents[..n], k);
      OffsetsAppend(HandlesOf(contents[..n]), HandlesOfPage(contents[n], n), k);
      OffsetsOfOnePage(HandlesOfPage(contents[n], n), n, k);
    }
  }

  lemma NoHandles(k: nat)
    ensures OffsetsOf([], k) == []
  {
  }

  lemma PageHandlesPoint(c: Content, page: uint32)
    requires Writable(c)
    ensures Points(c, Offsets(HandlesOfPage(c, page)))
  {
  }

  /** Every list of writable contents has pages and handles that are `Written`. */
  lemma WriterWrites(contents: seq<Content>)
    requires |contents| < TWO_31 && forall k :: 0 <= k < |contents| ==> Writable(contents[k])
    ensures Written(contents, PagesOf(contents), HandlesOf(contents))
  {
    hide Writable, HandlesOfPage, OffsetsOf, Offsets, PageOf, Points, HandlesOf;
    forall k | 0 <= k < |contents|
      ensures Points(contents[k], OffsetsOf(HandlesOf(contents), k))
    {
      HandlesPoint(contents, k);
      PageHandlesPoint(contents[k], k);
    }
  }

  // ----- keys

  /** Where a key stands among the keys made from `first` on. */
  function Rank(first: int, key: uint64): uint64 {
    Wrap64(key - first)
  }

  lemma RankOfKey(first: int, n: nat, key: uint64)
    requires -TWO_31 <= first && first + n < TWO_31
    ensures Rank(first, key) == n <==> key == Wrap64(first + n)
  {
  }

  /** Filling from an `int` on: the texts sit under consecutive keys, and nothing else is there. */
  lemma {:induction false} FilledKeys(first: int, texts: seq<Text>) returns (d: Filled)
    requires -TWO_31 <= first && first + |texts| < TWO_31
    ensures PutAll(Filled(map[], first), texts) == Defined(d) && d.index == first + |texts|
    ensures forall key :: key in d.table <==> Rank(first, key) < |texts|
    ensures forall key :: key in d.table ==> d.table[key] == texts[Rank(first, key)]
  {
    hide Rank;
    if texts == [] {
      d := Filled(map[], first);
    } else {
      var n := |texts| - 1;
      var front := FilledKeys(first, texts[..n]);
      d := Filled(front.table[Wrap64(front.index) := texts[n]], front.index + 1);
      forall key: uint64
        ensures Rank(first, key) == n <==> key == Wrap64(first + n)
      {
        RankOfKey(first, n, key);
      }
    }
  }

  lemma RankOfId(first: nat, n: nat, id: uint64)
    requires first + n < TWO_31
    ensures Rank(first, id) < n <==> first <= id < first + n
    ensures first <= id ==> Rank(first, id) == id - first
    ensures ToInt32(first) == first
  {
  }

  // ----- the whole dictionary

  /** What filling the table with the texts of all pages gives. */
  function FilledFrom(pages: seq<Page>, trees: seq<Rooted>, handles: seq<Handle>, minDataId: uint32): Outcome<Filled>
    requires |trees| == |pages|
  {
    Fill(Filled(map[], ToInt32(minDataId)), PagesTexts(pages, trees, handles, |pages|))
  }

  /** The table holds the strings under consecutive ids from the first, and nothing else. */
  ghost predicate Numbers(table: map<uint64, Text>, minDataId: uint32, strings: seq<Text>) {
    (forall id: uint64 :: id in table <==> minDataId <= id < minDataId + |strings|)
    && forall id :: id in table ==> table[id] == strings[id - minDataId]
  }

  ghost predicate Indexes(filled: Outcome<Filled>, minDataId: uint32, strings: seq<Text>) {
    filled.Defined? && Numbers(filled.value.table, minDataId, strings)
  }

  /** The ids leave room for the `int` that counts them. */
  predicate IdsFit(minDataId: uint32, strings: seq<Text>) {
    strings == [] || minDataId + |strings| < 0x8000_0000
  }

  lemma WrittenFill(contents: seq<Content>, pages: seq<Page>, trees: seq<Rooted>, handles: seq<Handle>,
                    minDataId: uint32)
    requires Written(contents, pages, handles) && TreesOf(pages, trees)
    ensures FilledFrom(pages, trees, handles, minDataId)
         == PutAll(Filled(map[], ToInt32(minDataId)), AllStrings(contents))
  {
    hide AllStrings, PagesTexts, PutAll;
    PagesRoundTrip(contents, pages, trees, handles, |pages|);
    assert contents[..|contents|] == contents;
  }

  lemma FilledIndexes(minDataId: uint32, strings: seq<Text>)
    requires minDataId + |strings| < TWO_31
    ensures Indexes(PutAll(Filled(map[], ToInt32(minDataId)), strings), minDataId, strings)
  {
    hide PutAll, Rank;
    RankOfId(minDataId, |strings|, 0);
    var d := FilledKeys(minDataId, strings);
    forall id: uint64
      ensures Rank(minDataId, id) < |strings| <==> minDataId <= id < minDataId + |strings|
      ensures minDataId <= id ==> Rank(minDataId, id) == id - minDataId
    {
      RankOfId(minDataId, |strings|, id);
    }
  }

  /** The `int` counts the texts and stays an `int`; the first key is the conversion it started with. */
  lemma {:induction false} FilledCount(d: Filled, texts: seq<Text>)
    requires PutAll(d, texts).Defined? && texts != []
    ensures PutAll(d, texts).value.index == d.index + |texts| < TWO_31
    ensures Wrap64(d.index) in PutAll(d, texts).value.table
    decreases |texts|
  {
    hide Wrap64;
    var front := texts[..|texts| - 1];
    if front != [] {
      FilledCount(d, front);
    }
  }

  /** The key a large first id is turned into lies far beyond the ids. */
  lemma LargeKey(minDataId: uint32, n: nat)
    requires minDataId >= TWO_31 && ToInt32(minDataId) + n < TWO_31
    ensures Wrap64(ToInt32(minDataId)) >= minDataId + n
  {
  }

  lemma NotFromLargeId(minDataId: uint32, strings: seq<Text>)
    requires strings != [] && Indexes(PutAll(Filled(map[], ToInt32(minDataId)), strings), minDataId, strings)
    ensures minDataId + |strings| < TWO_31
  {
    hide PutAll;
    FilledCount(Filled(map[], ToInt32(minDataId)), strings);
    if minDataId >= TWO_31 {
      LargeKey(minDataId, |strings|);
    }
  }

  /** The dictionary round trip: for any pages of strings, coded or plain, and any interleaving of
      their handles, the table holds the k-th string in page order under the k-th data id from the
      first, and no other ids, if and only if the last id leaves room below 2^31. */
  lemma ReadsBack(contents: seq<Content>, pages: seq<Page>, trees: seq<Rooted>, handles: seq<Handle>, minDataId: uint32)
    requires Written(contents, pages, handles) && TreesOf(pages, trees)
    ensures Indexes(FilledFrom(pages, trees, handles, minDataId), minDataId, AllStrings(contents))
        <==> IdsFit(minDataId, AllStrings(contents))
  {
    hide AllStrings, FilledFrom, PutAll, Indexes, Written, TreesOf;
    WrittenFill(contents, pages, trees, handles, minDataId);
    var strings := AllStrings(contents);
    if minDataId + |strings| < TWO_31 {
      FilledIndexes(minDataId, strings);
    } else if strings == [] {
      NothingIndexed(minDataId);
    } else if Indexes(PutAll(Filled(map[], ToInt32(minDataId)), strings), minDataId, strings) {
      NotFromLargeId(minDataId, strings);
    }
  }

  lemma NothingIndexed(minDataId: uint32)
    ensures Indexes(PutAll(Filled(map[], ToInt32(minDataId)), []), minDataId, [])
  {
  }
}
