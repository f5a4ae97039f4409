/** `readBitPacked`: fixed-width values in 64-bit words, none across a word boundary. */
module BitPacking {
  import opened Machine

  predicate UsableWidth(w: nat) {
    0 < w < 64
  }

  function PerWord(w: nat): (n: nat)
    requires UsableWidth(w)
    ensures n > 0
  {
    64 / w
  }

  /** The low `n` fields of a word, lowest first. */
  function Fields(word: nat, w: nat, n: nat): (r: seq<nat>)
    ensures |r| == n
    decreases n
  {
    if n == 0 then [] else [LowPart(word, w)] + Fields(ShiftRight(word, w), w, n - 1)
  }

  /** Field `i` counted from the low end: the reference reading of a word. */
  function Field(word: nat, w: nat, i: nat): nat {
    LowPart(ShiftRight(word, w * i), w)
  }

  function AddBase(fields: seq<nat>, base: uint64): (r: seq<uint64>)
    ensures |r| == |fields|
  {
    seq(|fields|, i requires 0 <= i < |fields| => Wrap64(base + fields[i]))
  }

  function Unpack(words: seq<uint64>, w: nat, base: uint64): (r: seq<uint64>)
    requires UsableWidth(w)
  {
    if words == [] then []
    else AddBase(Fields(words[0], w, PerWord(w)), base) + Unpack(words[1..], w, base)
  }

  lemma AddBaseSnoc(fields: seq<nat>, f: nat, base: uint64)
    ensures AddBase(fields + [f], base) == AddBase(fields, base) + [Wrap64(base + f)]
  {
  }

  lemma FieldsJoin(done: seq<nat>, word: nat, w: nat, n: nat)
    requires n > 0
    ensures done + Fields(word, w, n) == done + [LowPart(word, w)] + Fields(ShiftRight(word, w), w, n - 1)
  {
  }

  /** The inner loop. */
  method UnpackWord(word: uint64, w: nat, base: uint64, res: seq<uint64>) returns (more: seq<uint64>)
    requires UsableWidth(w)
    ensures more == res + AddBase(Fields(word, w, PerWord(w)), base)
  {
    more := res;
    var u8le: nat := word;
    ghost var done: seq<nat> := [];
    var n := PerWord(w);
    assert [] + Fields(word, w, n) == Fields(word, w, n);
    assert res + AddBase([], base) == res;
    for i := 0 to n
      invariant more == res + AddBase(done, base)
      invariant done + Fields(u8le, w, n - i) == Fields(word, w, n)
    {
      var field := LowPart(u8le, w);
      FieldsJoin(done, u8le, w, n - i);
      AddBaseSnoc(done, field, base);
      more := more + [Wrap64(base + field)];
      done := done + [field];
      u8le := ShiftRight(u8le, w);
    }
    assert done + [] == done;
  }

  lemma {:induction false} UnpackSnoc(words: seq<uint64>, word: uint64, w: nat, base: uint64)
    requires UsableWidth(w)
    ensures Unpack(words + [word], w, base) == Unpack(words, w, base) + AddBase(Fields(word, w, PerWord(w)), base)
  {
    hide Fields, AddBase;
    if words == [] {
      assert (words + [word])[1..] == [];
    } else {
      UnpackSnoc(words[1..], word, w, base);
      assert (words + [word])[1..] == words[1..] + [word];
    }
  }

  /** `readBitPacked`. */
  method ReadBitPacked(words: seq<uint64>, w: nat, base: uint64) returns (res: seq<uint64>)
    requires UsableWidth(w)
    ensures res == Unpack(words, w, base)
  {
    res := [];
    for k := 0 to |words|
      invariant res == Unpack(words[..k], w, base)
    {
      UnpackSnoc(words[..k], words[k], w, base);
      assert words[..k + 1] == words[..k] + [words[k]];
      res := UnpackWord(words[k], w, base, res);
    }
    assert words[..|words|] == words;
  }

  // ----- which value is where

  lemma {:induction false} FieldAt(word: nat, w: nat, n: nat, i: nat)
    requires i < n
    ensures Fields(word, w, n)[i] == Field(word, w, i)
    decreases n
  {
    if i == 0 {
      assert w * 0 == 0;
    } else {
      FieldAt(ShiftRight(word, w), w, n - 1, i - 1);
      Times(w, i);
      ShiftRightTwice(word, w, w * (i - 1));
    }
  }

  lemma Times(w: nat, i: nat)
    requires i > 0
    ensures w * i == w + w * (i - 1)
  {
  }

  lemma StepBack(k: nat, n: nat)
    requires 0 < n <= k
    ensures k / n == (k - n) / n + 1 && k % n == (k - n) % n
  {
    var q, r := (k - n) / n, (k - n) % n;
    assert k == n * (q + 1) + r;
    ModUnique(k, n, q + 1, r);
  }

  /** The k-th value is the base plus field k mod n of word k div n, n values to a word. */
  lemma {:induction false} UnpackAt(words: seq<uint64>, w: nat, base: uint64, k: nat)
    requires UsableWidth(w) && k < |Unpack(words, w, base)|
    ensures 64 / w > 0 && k / (64 / w) < |words|
    ensures Unpack(words, w, base)[k] == Wrap64(base + Field(words[k / (64 / w)], w, k % (64 / w)))
    decreases |words|
  {
    hide Field, Fields;
    var n := PerWord(w);
    if k < n {
      SmallQuotient(k, n);
      FieldAt(words[0], w, n, k);
    } else {
      StepBack(k, n);
      UnpackAt(words[1..], w, base, k - n);
    }
  }

  lemma SmallQuotient(k: nat, n: nat)
    requires k < n
    ensures k / n == 0 && k % n == k
  {
  }

  lemma {:induction false} UnpackLength(words: seq<uint64>, w: nat, base: uint64)
    requires UsableWidth(w)
    ensures |Unpack(words, w, base)| == 64 / w * |words|
  {
    if words == [] {
    } else {
      UnpackLength(words[1..], w, base);
      Times(PerWord(w), |words|);
    }
  }

  // ----- the packer

  predicate Fit(fields: seq<nat>, w: nat) {
    forall i :: 0 <= i < |fields| ==> fields[i] < Pow2(w)
  }

  function PackWord(fields: seq<nat>, w: nat): nat {
    if fields == [] then 0 else fields[0] + ShiftLeft(PackWord(fields[1..], w), w)
  }

  lemma {:induction false} PackWordBound(fields: seq<nat>, w: nat)
    requires Fit(fields, w)
    ensures PackWord(fields, w) < Pow2(w * |fields|)
  {
    if fields == [] {
    } else {
      var rest := fields[1..];
      PackWordBound(rest, w);
      Times(w, |fields|);
      ShiftLeftUnit(w * |rest|, w);
      ShiftLeftOrder(Pow2(w * |rest|), PackWord(rest, w) + 1, w);
      ShiftLeftSum(PackWord(rest, w), 1, w);
    }
  }

  lemma {:induction false} Pow2Order(a: nat, b: nat)
    requires a <= b
    ensures Pow2(a) <= Pow2(b)
  {
    if a < b {
      Pow2Order(a, b - 1);
    }
  }

  lemma WordRoom(w: nat, k: nat)
    requires UsableWidth(w) && k <= PerWord(w)
    ensures w * k <= 64
  {
    assert w * k + w * (64 / w - k) == w * (64 / w);
  }

  lemma PackWordFits(fields: seq<nat>, w: nat)
    requires UsableWidth(w) && Fit(fields, w) && |fields| <= PerWord(w)
    ensures PackWord(fields, w) < TWO_64
  {
    PackWordBound(fields, w);
    WordRoom(w, |fields|);
    Pow2Order(w * |fields|, 64);
    Pow2Values();
  }

  /** As many fields to a word as fit whole. */
  function PackWords(fields: seq<nat>, w: nat): seq<uint64>
    requires 0 < w < 64 && Fit(fields, w)
  {
    if fields == [] then []
    else
      var n := Min(64 / w, |fields|);
      PackWordFits(fields[..n], w);
      [PackWord(fields[..n], w)] + PackWords(fields[n..], w)
  }

  lemma {:induction false} ZeroSplits(w: nat)
    ensures LowPart(0, w) == 0 && ShiftRight(0, w) == 0
  {
    if w > 0 {
      ZeroSplits(w - 1);
    }
  }

  /** Unpacking a packed word gives its fields, then zeros. */
  lemma {:induction false} FieldsOfPacked(fields: seq<nat>, w: nat, n: nat)
    requires Fit(fields, w) && |fields| <= n
    ensures Fields(PackWord(fields, w), w, n) == fields + seq(n - |fields|, _ => 0)
  {
    if n == 0 {
      assert fields == [];
    } else if fields == [] {
      FieldsOfPacked([], w, n - 1);
      ZeroSplits(w);
    } else {
      FieldsOfPacked(fields[1..], w, n - 1);
      SplitJoined(fields[0], PackWord(fields[1..], w), w);
    }
  }

  lemma AddBaseAppend(a: seq<nat>, b: seq<nat>, base: uint64)
    ensures AddBase(a + b, base) == AddBase(a, base) + AddBase(b, base)
  {
  }

  lemma AddBaseZeros(n: nat, base: uint64)
    ensures AddBase(seq(n, _ => 0), base) == seq(n, _ => base)
  {
    var zeros: seq<nat> := seq(n, _ => 0);
    forall k | 0 <= k < n
      ensures AddBase(zeros, base)[k] == base
    {
      assert Wrap64(base + zeros[k]) == base;
    }
  }

  lemma FirstWord(fields: seq<nat>, w: nat, base: uint64)
    requires UsableWidth(w) && Fit(fields, w) && |fields| <= PerWord(w)
    ensures AddBase(Fields(PackWord(fields, w), w, PerWord(w)), base)
         == AddBase(fields, base) + seq(PerWord(w) - |fields|, _ => base)
  {
    FieldsOfPacked(fields, w, PerWord(w));
    AddBaseAppend(fields, seq(PerWord(w) - |fields|, _ => 0), base);
    AddBaseZeros(PerWord(w) - |fields|, base);
  }

  /** The whole list: the values come back first, and every value after them is the base. */
  lemma {:induction false} PackRoundTrip(fields: seq<nat>, w: nat, base: uint64)
    returns (padding: nat)
    requires 0 < w < 64 && Fit(fields, w)
    ensures Unpack(PackWords(fields, w), w, base) == AddBase(fields, base) + seq(padding, _ => base)
    decreases |fields|
  {
    hide AddBase, Fields, PackWord;
    if fields == [] {
      padding := 0;
      AddBaseZeros(0, base);
    } else {
      var n := Min(PerWord(w), |fields|);
      var head, rest := fields[..n], fields[n..];
      FirstWord(head, w, base);
      padding := PackRoundTrip(rest, w, base);
      PackWordFits(head, w);
      assert PackWords(fields, w) == [PackWord(head, w)] + PackWords(rest, w);
      assert PackWords(fields, w)[1..] == PackWords(rest, w);
      AddBaseAppend(head, rest, base);
      assert head + rest == fields;
      if rest == [] {
        AddBaseZeros(0, base);
        assert rest == seq(0, _ => 0);
        assert PackWords(rest, w) == [];
        padding := PerWord(w) - n;
      }
    }
  }
}
