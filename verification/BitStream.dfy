/** The bit order of a compressed string page: most significant bit first, bytes swapped in pairs. */
module BitStream {
  import opened Machine
  import opened CanonicalCode

  /** The byte that holds the p-th byte of the stream: its neighbour in the 16-bit pair. */
  function Swapped(p: nat): (q: nat)
    ensures q / 2 == p / 2 && q != p
  {
    p - p % 2 + (1 - p % 2)
  }

  /** An element of a `std::string`: the one past the last is a zero, further ones do not exist. */
  function Character(buffer: seq<byte>, index: nat): byte
    requires index <= |buffer|
  {
    if index < |buffer| then buffer[index] else 0
  }

  predicate BitInside(buffer: seq<byte>, pos: nat) {
    Swapped(pos / 8) <= |buffer|
  }

  function BitAt(buffer: seq<byte>, pos: nat): bool
    requires BitInside(buffer, pos)
  {
    Character(buffer, Swapped(pos / 8)) / Pow2(7 - pos % 8) % 2 == 1
  }

  /** How many bits a range has, and where the i-th is: a range that ends before it starts goes on
      from position zero. */
  function Width(start: uint32, end: uint32): uint32 {
    Wrap32(end - start)
  }

  function Position(start: uint32, i: nat): uint32 {
    Wrap32(start + i)
  }

  predicate BitsInside(buffer: seq<byte>, start: uint32, end: uint32) {
    forall i :: 0 <= i < Width(start, end) ==> BitInside(buffer, Position(start, i))
  }

  /** The bits of the range from `start` to before `end`. */
  function Bits(buffer: seq<byte>, start: uint32, end: uint32): (bits: seq<bool>)
    requires BitsInside(buffer, start, end)
    ensures |bits| == Width(start, end)
  {
    seq(Width(start, end), i requires 0 <= i < Width(start, end) => BitAt(buffer, Position(start, i)))
  }

  // ----- the writer: any bit string laid out in a buffer of whole pairs

  function Padded(bits: seq<bool>, p: nat): (octet: seq<bool>)
    ensures |octet| == 8
  {
    seq(8, k requires 0 <= k < 8 => 8 * p + k < |bits| && bits[8 * p + k])
  }

  function PairBytes(bits: seq<bool>): nat {
    2 * ((|bits| + 15) / 16)
  }

  lemma {:induction false} BitsValueBound(bits: seq<bool>)
    ensures BitsValue(bits) < Pow2(|bits|)
  {
    if bits == [] {
    } else {
      BitsValueBound(bits[..|bits| - 1]);
    }
  }

  function OctetByte(bits: seq<bool>): byte
    requires |bits| == 8
  {
    BitsValueBound(bits);
    BitsValue(bits)
  }

  function LayOut(bits: seq<bool>): (buffer: seq<byte>)
    ensures |buffer| == PairBytes(bits)
  {
    seq(PairBytes(bits), q requires 0 <= q < PairBytes(bits) => OctetByte(Padded(bits, Swapped(q))))
  }

  lemma {:induction false} BitOfValue(bits: seq<bool>, k: nat)
    requires k < |bits|
    ensures (BitsValue(bits) / Pow2(|bits| - 1 - k) % 2 == 1) == bits[k]
  {
    var n := |bits| - 1;
    if k == n {
    } else {
      BitOfValue(bits[..n], k);
      assert BitsValue(bits) / 2 == BitsValue(bits[..n]);
      HalfDiv(BitsValue(bits), Pow2(n - 1 - k));
      assert Pow2(n - k) == 2 * Pow2(n - 1 - k);
    }
  }

  lemma HalfDiv(v: nat, m: nat)
    requires m > 0
    ensures v / (2 * m) == v / 2 / m
  {
    var q, r := v / 2 / m, v / 2 % m;
    ModUnique(v, 2 * m, q, 2 * r + v % 2);
  }

  lemma LayOutCharacter(bits: seq<bool>, p: nat)
    requires 8 * p < |bits|
    ensures Swapped(p) < |LayOut(bits)| && Character(LayOut(bits), Swapped(p)) == OctetByte(Padded(bits, p))
  {
    assert Swapped(Swapped(p)) == p;
  }

  lemma LayOutBit(bits: seq<bool>, pos: nat)
    requires pos < |bits|
    ensures BitInside(LayOut(bits), pos) && BitAt(LayOut(bits), pos) == bits[pos]
  {
    var p, k := pos / 8, pos % 8;
    hide LayOut, Padded, Swapped, Character, Pow2;
    var octet := Padded(bits, p);
    assert octet[k] == bits[pos];
    BitOfValue(octet, k);
    LayOutCharacter(bits, p);
  }

  /** Reading any range of a laid-out bit string gives those bits. */
  lemma LayOutRoundTrip(bits: seq<bool>, start: uint32, end: uint32)
    requires start <= end <= |bits|
    ensures BitsInside(LayOut(bits), start, end)
    ensures Bits(LayOut(bits), start, end) == bits[start..end]
  {
    hide LayOut, BitInside, BitAt;
    assert Width(start, end) == end - start;
    forall i | 0 <= i < Width(start, end)
      ensures Position(start, i) == start + i
      ensures BitInside(LayOut(bits), Position(start, i)) && BitAt(LayOut(bits), Position(start, i)) == bits[start + i]
    {
      LayOutBit(bits, start + i);
    }
  }

  /** The end of a buffer: the byte paired with the last of an odd buffer, or the one that would pair
      with the byte past an even one, is the zero that ends the string; further ones do not exist. */
  lemma EndOfBuffer(buffer: seq<byte>, pos: nat)
    ensures pos / 8 == (if |buffer| % 2 == 1 then |buffer| - 1 else |buffer| + 1) ==>
              BitInside(buffer, pos) && !BitAt(buffer, pos)
    ensures BitInside(buffer, pos)
        <==> pos / 8 < |buffer| || pos / 8 == |buffer| + (if |buffer| % 2 == 1 then 0 else 1)
  {
    hide Pow2;
    ZeroDigits(Pow2(7 - pos % 8));
  }

  lemma ZeroDigits(m: nat)
    requires m > 0
    ensures 0 / m % 2 == 0
  {
  }

  // ----- the masks of the source

  /** The byte index the source computes: bit 0 masked off and put back turned over. */
  function MaskedIndex(bytePos: bv32): bv32 {
    (bytePos & 0xFFFF_FFFE) + (1 - (bytePos & 1))
  }

  lemma MaskedDouble(h: bv32)
    requires h < 0x1000_0000
    ensures MaskedIndex(h << 1) == (h << 1) | 1 && MaskedIndex((h << 1) | 1) == h << 1
  {
  }

  lemma {:induction false} SomeBits32(p: nat) returns (x: bv32)
    requires p < 0x2000_0000
    ensures Number32(x) == p
  {
    hide Number32;
    if p == 0 {
      x := 0;
      Zero32();
    } else {
      var h := SomeBits32(p / 2);
      Below28(h);
      Double32(h);
      x := if p % 2 == 0 then h << 1 else (h << 1) | 1;
    }
  }

  /** The masks select the neighbour in the pair. */
  lemma MasksSwap(p: nat)
    requires p < 0x2000_0000
    ensures Number32(MaskedIndex(Bits32(p))) == Swapped(p)
  {
    hide MaskedIndex, Number32, Bits32;
    var h := SomeBits32(p / 2);
    Below28(h);
    Double32(h);
    MaskedDouble(h);
    BackToBits32(if p % 2 == 0 then h << 1 else (h << 1) | 1);
  }

  function Mask(k: nat): bv8
    requires k < 8
  {
    1 << k
  }

  lemma MaskStep(k: nat)
    requires k < 7
    ensures Mask(k + 1) == Mask(k) << 1 && Mask(k) < 0x80
  {
  }

  lemma LowestDigit(x: bv8)
    ensures (x & Mask(0) != 0) == (Number8(x) % 2 == 1)
  {
  }

  lemma HalfOf(x: bv8)
    ensures Number8(x >> 1) == Number8(x) / 2
  {
  }

  lemma ShiftedMask(x: bv8, m: bv8)
    requires m < 0x80
    ensures x & (m << 1) != 0 <==> (x >> 1) & m != 0
  {
  }

  lemma {:induction false} MaskDigit(x: bv8, k: nat)
    requires k < 8
    ensures (x & Mask(k) != 0) == (Number8(x) / Pow2(k) % 2 == 1)
    decreases k
  {
    hide Mask, Number8;
    if k == 0 {
      LowestDigit(x);
    } else {
      MaskStep(k - 1);
      ShiftedMask(x, Mask(k - 1));
      MaskDigit(x >> 1, k - 1);
      HalfOf(x);
      HalfDiv(Number8(x), Pow2(k - 1));
    }
  }

  /** The mask of a bit selects that binary digit. */
  lemma MaskSelects(octet: byte, k: nat)
    requires k < 8
    ensures (Bits8(octet) & Mask(k) != 0) == (octet / Pow2(k) % 2 == 1)
  {
    hide Mask, Number8, Bits8;
    ByteAsBits(octet);
    MaskDigit(Bits8(octet), k);
  }
}
