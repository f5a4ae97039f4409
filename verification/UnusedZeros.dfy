/** Plain pages whose buffer is larger than their strings: what the unused zeros do to the data ids. */
module UnusedZeros {
  import opened Machine
  import opened Huffman
  import opened Dictionary
  import opened DictionaryRoundTrip

  function AllHeld(contents: seq<Content>): seq<Text> {
    if contents == [] then [] else Held(contents[0]) + AllHeld(contents[1..])
  }

  predicate OnlyEmpty(strings: seq<Text>) {
    forall i :: 0 <= i < |strings| ==> strings[i] == []
  }

  predicate HasPadding(c: Content) {
    c.Raw? && c.padding > 0
  }

  /** Behind a page with unused zeros there are only empty strings. */
  predicate PaddingHarmless(contents: seq<Content>) {
    forall i, j :: 0 <= i < j < |contents| && HasPadding(contents[i]) ==> OnlyEmpty(Held(contents[j]))
  }

  lemma {:induction false} StringsFromFront(contents: seq<Content>)
    requires contents != []
    ensures AllStrings(contents) == StringsOf(contents[0]) + AllStrings(contents[1..])
  {
    hide StringsOf;
    if |contents| == 1 {
      assert contents[..0] == [] && contents[1..] == [];
      assert [] + StringsOf(contents[0]) == StringsOf(contents[0]) + [];
    } else {
      var n := |contents| - 1;
      StringsFromFront(contents[..n]);
      assert contents[..n][1..] == contents[1..][..n - 1];
    }
  }

  /** What a reader sees is what the pages hold, pushed back by empty strings: it starts with at least
      as many empty ones. */
  lemma {:induction false} EmptyStart(contents: seq<Content>, n: nat)
    requires forall i :: 0 <= i < n && i < |AllHeld(contents)| ==> AllHeld(contents)[i] == []
    ensures forall i :: 0 <= i < n && i < |AllStrings(contents)| ==> AllStrings(contents)[i] == []
    ensures |AllHeld(contents)| <= |AllStrings(contents)|
    decreases |contents|
  {
    hide AllStrings, StringsOf, Held;
    if contents == [] {
      NoStrings();
    } else {
      var held := Held(contents[0]);
      var p := PaddingOf(contents[0]);
      StringsFromFront(contents);
      var rest := AllStrings(contents[1..]);
      assert AllStrings(contents) == held + Empties(p) + rest;
      var m := if n <= |held| then 0 else n - |held|;
      forall i | 0 <= i < m && i < |AllHeld(contents[1..])|
        ensures AllHeld(contents[1..])[i] == []
      {
        assert AllHeld(contents)[|held| + i] == AllHeld(contents[1..])[i];
      }
      EmptyStart(contents[1..], m);
      forall i | 0 <= i < n && i < |AllStrings(contents)|
        ensures AllStrings(contents)[i] == []
      {
        if i < |held| {
          assert AllStrings(contents)[i] == held[i] == AllHeld(contents)[i];
        } else if i >= |held| + p {
          assert AllStrings(contents)[i] == rest[i - |held| - p];
        }
      }
    }
  }

  lemma NoStrings()
    ensures AllStrings([]) == []
  {
  }

  /** A page's strings as seen are those it holds and then empty ones. */
  lemma PaddingOf(c: Content) returns (p: nat)
    ensures StringsOf(c) == Held(c) + Empties(p) && (p > 0 <==> HasPadding(c))
  {
    p := if c.Raw? then c.padding else 0;
    assert Held(c) + Empties(0) == Held(c);
  }

  lemma {:induction false} HeldIn(contents: seq<Content>)
    ensures OnlyEmpty(AllHeld(contents)) <==> forall j :: 0 <= j < |contents| ==> OnlyEmpty(Held(contents[j]))
  {
    hide Held;
    if contents != [] {
      HeldIn(contents[1..]);
      OnlyEmptyBoth(Held(contents[0]), AllHeld(contents[1..]));
      assert forall j :: 0 < j < |contents| ==> contents[j] == contents[1..][j - 1];
      assert forall j :: 0 <= j < |contents| - 1 ==> contents[1..][j] == contents[j + 1];
    }
  }

  lemma OnlyEmptyBoth(a: seq<Text>, b: seq<Text>)
    ensures OnlyEmpty(a + b) <==> OnlyEmpty(a) && OnlyEmpty(b)
  {
    assert forall i :: 0 <= i < |a| ==> (a + b)[i] == a[i];
    assert forall i :: 0 <= i < |b| ==> (a + b)[|a| + i] == b[i];
  }

  lemma HarmlessFromFront(contents: seq<Content>)
    requires contents != []
    ensures PaddingHarmless(contents)
        <==> PaddingHarmless(contents[1..])
             && (HasPadding(contents[0]) ==> OnlyEmpty(AllHeld(contents[1..])))
  {
    hide Held, OnlyEmpty, HasPadding;
    var rest := contents[1..];
    HeldIn(rest);
    assert forall j :: 0 <= j < |rest| ==> rest[j] == contents[j + 1];
    if PaddingHarmless(rest) && (HasPadding(contents[0]) ==> OnlyEmpty(AllHeld(rest))) {
      forall i, j | 0 <= i < j < |contents| && HasPadding(contents[i])
        ensures OnlyEmpty(Held(contents[j]))
      {
        assert contents[j] == rest[j - 1];
        assert i > 0 ==> contents[i] == rest[i - 1];
      }
    }
  }

  lemma ShiftedPrefix(held: seq<Text>, seen: seq<Text>, p: nat)
    requires p > 0 && |held| <= |seen|
    requires forall n: nat {:trigger EmptyBelow(held, n)} :: EmptyBelow(held, n) ==> EmptyBelow(seen, n)
    ensures held <= Empties(p) + seen <==> OnlyEmpty(held)
  {
    var shifted := Empties(p) + seen;
    if OnlyEmpty(held) {
      assert EmptyBelow(held, |held|);
      forall i | 0 <= i < |held|
        ensures shifted[i] == held[i]
      {
        assert i >= p ==> shifted[i] == seen[i - p];
      }
    } else {
      var j := FirstFilled(held);
      assert EmptyBelow(held, j);
      assert shifted[j] == [];
    }
  }

  predicate EmptyBelow(strings: seq<Text>, n: nat) {
    forall i :: 0 <= i < n && i < |strings| ==> strings[i] == []
  }

  lemma FirstFilled(strings: seq<Text>) returns (j: nat)
    requires !OnlyEmpty(strings)
    ensures j < |strings| && strings[j] != [] && EmptyBelow(strings, j)
  {
    var i :| 0 <= i < |strings| && strings[i] != [];
    j := FirstFilledUpTo(strings, i);
  }

  lemma {:induction false} FirstFilledUpTo(strings: seq<Text>, n: nat) returns (j: nat)
    requires n < |strings| && strings[n] != []
    ensures j < |strings| && strings[j] != [] && EmptyBelow(strings, j)
    decreases n
  {
    if EmptyBelow(strings, n) {
      j := n;
    } else {
      var i :| 0 <= i < n && strings[i] != [];
      j := FirstFilledUpTo(strings, i);
    }
  }

  /** The strings held are a beginning of the strings seen exactly when the unused zeros do no harm. */
  lemma {:induction false} HeldFirstIff(contents: seq<Content>)
    ensures AllHeld(contents) <= AllStrings(contents) <==> PaddingHarmless(contents)
  {
    hide AllStrings, StringsOf, Held, PaddingHarmless, OnlyEmpty;
    if contents == [] {
      NoStrings();
      NothingHarms();
    } else {
      var held := Held(contents[0]);
      var rest, seen := AllHeld(contents[1..]), AllStrings(contents[1..]);
      var p := PaddingOf(contents[0]);
      StringsFromFront(contents);
      HarmlessFromFront(contents);
      HeldFirstIff(contents[1..]);
      BehindPrefix(held, rest, Empties(p) + seen);
      assert AllStrings(contents) == held + (Empties(p) + seen);
      if p == 0 {
        assert Empties(0) + seen == seen;
      } else {
        forall n: nat | EmptyBelow(rest, n)
          ensures EmptyBelow(seen, n)
        {
          EmptyStart(contents[1..], n);
        }
        EmptyStart(contents[1..], 0);
        ShiftedPrefix(rest, seen, p);
        EmptyIsHarmless(contents[1..]);
      }
    }
  }

  lemma NothingHarms()
    ensures PaddingHarmless([])
  {
  }

  lemma EmptyIsHarmless(contents: seq<Content>)
    ensures OnlyEmpty(AllHeld(contents)) ==> PaddingHarmless(contents)
  {
    HeldIn(contents);
  }

  lemma BehindPrefix<T>(a: seq<T>, b: seq<T>, c: seq<T>)
    ensures a + b <= a + c <==> b <= c
  {
    if a + b <= a + c {
      assert b == (a + b)[|a|..] && c == (a + c)[|a|..];
      assert (a + c)[..|a + b|] == a + b;
      assert c[..|b|] == (a + c)[|a|..|a + b|] == b;
    }
    if b <= c {
      assert c == b + c[|b|..];
      assert a + c == (a + b) + c[|b|..];
    }
  }

  /** The string held k-th by the pages has the k-th id. */
  ghost predicate IdsRight(filled: Outcome<Filled>, minDataId: uint32, held: seq<Text>) {
    filled.Defined?
    && forall k :: 0 <= k < |held| ==> HasText(filled.value.table, minDataId + k, held[k])
  }

  predicate HasText(table: map<uint64, Text>, id: nat, text: Text) {
    id < TWO_64 && id in table && table[id] == text
  }

  /** Unused zeros shift the ids of the strings behind them: every string of every page is found
      under its id if and only if behind a page with unused zeros there are only empty strings. */
  lemma PaddingShiftsIff(contents: seq<Content>, pages: seq<Page>, trees: seq<Rooted>, handles: seq<Handle>,
                         minDataId: uint32)
    requires Written(contents, pages, handles) && TreesOf(pages, trees) && IdsFit(minDataId, AllStrings(contents))
    ensures IdsRight(FilledFrom(pages, trees, handles, minDataId), minDataId, AllHeld(contents))
        <==> PaddingHarmless(contents)
  {
    hide AllStrings, AllHeld, FilledFrom, PaddingHarmless, Written, IdsFit, Indexes, IdsRight;
    ReadsBack(contents, pages, trees, handles, minDataId);
    HeldFirstIff(contents);
    IdsOfBeginning(FilledFrom(pages, trees, handles, minDataId), minDataId, AllHeld(contents), AllStrings(contents));
  }

  lemma IdsOfBeginning(filled: Outcome<Filled>, minDataId: uint32, held: seq<Text>, seen: seq<Text>)
    requires Indexes(filled, minDataId, seen) && IdsFit(minDataId, seen)
    ensures IdsRight(filled, minDataId, held) <==> held <= seen
  {
    var table := filled.value.table;
    if IdsRight(filled, minDataId, held) {
      if held != [] {
        var k := |held| - 1;
        assert HasText(table, minDataId + k, held[k]);
      }
      forall k | 0 <= k < |held|
        ensures k < |seen| && held[k] == seen[k]
      {
        assert HasText(table, minDataId + k, held[k]);
      }
    }
    if held <= seen {
      forall k | 0 <= k < |held|
        ensures HasText(table, minDataId + k, held[k])
      {
        var id: uint64 := minDataId + k;
        assert id in table;
      }
    }
  }
}
