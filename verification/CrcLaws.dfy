/** The checksum in plain numbers: what complementing the register before and after comes to, and the
    residue every message followed by its own checksum leaves. */
module CrcLaws {
  import opened Machine
  import opened Crc

  // ----- bits of complements

  function Not(bits: seq<bool>): (r: seq<bool>)
    ensures |r| == |bits|
  {
    seq(|bits|, i requires 0 <= i < |bits| => !bits[i])
  }

  /** Every byte taken from 255. */
  function Complemented(data: seq<byte>): (r: seq<byte>)
    ensures |r| == |data|
  {
    seq(|data|, i requires 0 <= i < |data| => 0xFF - data[i])
  }

  lemma {:induction false} XorBits(x: bv32, m: bv32, n: nat)
    ensures |BitsOf(x, n)| == |BitsOf(m, n)| == |BitsOf(Xor(x, m), n)| == n
    ensures forall i :: 0 <= i < n ==> BitsOf(Xor(x, m), n)[i] == (BitsOf(x, n)[i] != BitsOf(m, n)[i])
    decreases n
  {
    hide Xor, Shr1, LowBit;
    if n > 0 {
      ShiftXor(x, m);
      XorBits(Shr1(x), Shr1(m), n - 1);
    }
  }

  predicate AllTrue(bits: seq<bool>) {
    forall i :: 0 <= i < |bits| ==> bits[i]
  }

  lemma FlippedBits(x: bv32, m: bv32, n: nat)
    requires AllTrue(BitsOf(m, n))
    ensures BitsOf(Xor(x, m), n) == Not(BitsOf(x, n))
  {
    hide Xor, BitsOf;
    XorBits(x, m, n);
  }

  lemma LowNibble(x: bv32)
    requires x & 0xF == 0xF
    ensures LowBit(x) && LowBit(Shr1(x)) && LowBit(Shr1(Shr1(x))) && LowBit(Shr1(Shr1(Shr1(x))))
    ensures Shr1(Shr1(Shr1(Shr1(x)))) == x >> 4
  {
  }

  lemma FourOnes(x: bv32, n: nat)
    requires x & 0xF == 0xF && AllTrue(BitsOf(x >> 4, n))
    ensures AllTrue(BitsOf(x, n + 4))
  {
    hide Shr1, LowBit;
    LowNibble(x);
    var x1 := Shr1(x);
    var x2 := Shr1(x1);
    var x3 := Shr1(x2);
    assert BitsOf(x, n + 4) == [LowBit(x)] + BitsOf(x1, n + 3);
    assert BitsOf(x1, n + 3) == [LowBit(x1)] + BitsOf(x2, n + 2);
    assert BitsOf(x2, n + 2) == [LowBit(x2)] + BitsOf(x3, n + 1);
    assert BitsOf(x3, n + 1) == [LowBit(x3)] + BitsOf(Shr1(x3), n);
  }

  lemma EightOnes()
    ensures AllTrue(BitsOf(0xFF, 8))
  {
    hide BitsOf;
    NoOnes(0);
    FourOnes(0xF, 0);
    FourOnes(0xFF, 4);
  }

  lemma NoOnes(x: bv32)
    ensures AllTrue(BitsOf(x, 0))
  {
  }

  lemma AllOnes()
    ensures AllTrue(BitsOf(0xFFFF_FFFF, 32))
  {
    hide BitsOf;
    EightOnes();
    FourOnes(0xFFF, 8);
    FourOnes(0xFFFF, 12);
    FourOnes(0xF_FFFF, 16);
    FourOnes(0xFF_FFFF, 20);
    FourOnes(0xFFF_FFFF, 24);
    FourOnes(0xFFFF_FFFF, 28);
  }

  lemma Complement8(x: bv8)
    ensures Number8(x ^ 0xFF) == 0xFF - Number8(x)
  {
  }

  lemma Widened(x: bv8)
    ensures (x ^ 0xFF) as bv32 == Xor(x as bv32, 0xFF)
  {
  }

  lemma ComplementedOctet(b: byte)
    ensures BitsOf(Octet(0xFF - b), 8) == Not(BitsOf(Octet(b), 8))
  {
    hide Bits8, Number8, BitsOf, Xor;
    var x := Bits8(b);
    ByteAsBits(b);
    Complement8(x);
    BackToBits8(x ^ 0xFF);
    Widened(x);
    EightOnes();
    FlippedBits(Octet(b), 0xFF, 8);
  }

  lemma {:induction false} ComplementedMessage(data: seq<byte>)
    ensures MessageBits(Complemented(data)) == Not(MessageBits(data))
  {
    hide BitsOf, Octet;
    if data == [] {
    } else {
      var n := |data| - 1;
      ComplementedMessage(data[..n]);
      ComplementedOctet(data[n]);
      assert Complemented(data)[..n] == Complemented(data[..n]);
      assert Not(MessageBits(data[..n]) + BitsOf(Octet(data[n]), 8))
          == Not(MessageBits(data[..n])) + Not(BitsOf(Octet(data[n]), 8));
    }
  }

  // ----- the register that starts complemented

  function Shr4(x: bv32): bv32 {
    x >> 4
  }

  lemma NextShr4(x: bv32, y: bv32, m: nat)
    requires Shifts(x, m) == y
    ensures Shifts(x, m + 4) == Shr4(y)
  {
    hide Shifts;
    NextFour(x, y, m);
  }

  lemma EightNibbles(x: bv32)
    ensures Shr4(Shr4(Shr4(Shr4(Shr4(Shr4(Shr4(Shr4(x)))))))) == 0
  {
  }

  lemma NoShift(x: bv32)
    ensures Shifts(x, 0) == x
  {
  }

  lemma AllShiftOut(x: bv32)
    ensures Shifts(x, 32) == 0
  {
    hide Shifts, Shr4;
    var x1 := Shr4(x);
    var x2 := Shr4(x1);
    var x3 := Shr4(x2);
    var x4 := Shr4(x3);
    var x5 := Shr4(x4);
    var x6 := Shr4(x5);
    var x7 := Shr4(x6);
    NoShift(x);
    NextShr4(x, x, 0);
    NextShr4(x, x1, 4);
    NextShr4(x, x2, 8);
    NextShr4(x, x3, 12);
    NextShr4(x, x4, 16);
    NextShr4(x, x5, 20);
    NextShr4(x, x6, 24);
    NextShr4(x, x7, 28);
    EightNibbles(x);
  }

  /** Thirty-two bits fed to a complemented register are their complements fed to a clear one. */
  lemma StartComplemented(u: seq<bool>)
    requires |u| == 32
    ensures Divide(0xFFFF_FFFF, u) == Divide(0, Not(u))
  {
    hide Divide, Steps, Shifts, BitsOf, WordOf, Xor;
    var w := WordOf(u);
    WordHasBits(u);
    FeedWord(0xFFFF_FFFF, w, 32);
    XorCommutes(0xFFFF_FFFF, w);
    var m := Xor(w, 0xFFFF_FFFF);
    FeedWord(0, m, 32);
    XorZero(m);
    XorCommutes(0, m);
    AllShiftOut(m);
    AllOnes();
    FlippedBits(w, 0xFFFF_FFFF, 32);
    XorZero(Divide(0xFFFF_FFFF, u));
    XorZero(Divide(0, Not(u)));
  }

  lemma FlipIs(x: bv32)
    ensures Flip(x) == x ^ 0xFFFF_FFFF && Flip(0) == 0xFFFF_FFFF
  {
  }

  lemma ComplementNumber(x: bv32)
    ensures Number32(x ^ 0xFFFF_FFFF) == 0xFFFF_FFFF - Number32(x)
  {
    hide Number32, BitsOf, Xor, Shifts;
    XorWith(x);
    ComplementedValue(x);
  }

  lemma XorWith(x: bv32)
    ensures x ^ 0xFFFF_FFFF == Xor(x, 0xFFFF_FFFF)
  {
  }

  /** In numbers: the checksum of at least four bytes is the complement of the plain remainder of the
      message with its first four bytes complemented. */
  lemma ChecksumIsRemainder(data: seq<byte>)
    requires |data| >= 4
    ensures Number32(Checksum(data, 0))
         == 0xFFFF_FFFF - Number32(Divide(0, MessageBits(Complemented(data[..4]) + data[4..])))
  {
    hide Divide, MessageBits, Flip, Number32;
    var first, rest := data[..4], data[4..];
    assert data == first + rest;
    MessageAppend(first, rest);
    MessageAppend(Complemented(first), rest);
    MessageLength(first);
    ComplementedMessage(first);
    StartComplemented(MessageBits(first));
    DivideAppend(0xFFFF_FFFF, MessageBits(first), MessageBits(rest));
    DivideAppend(0, Not(MessageBits(first)), MessageBits(rest));
    var remainder := Divide(0xFFFF_FFFF, MessageBits(data));
    FlipIs(0);
    FlipIs(remainder);
    ComplementNumber(remainder);
  }

  // ----- numbers and their bits, lowest first

  function LeNumber(bits: seq<bool>): nat {
    if bits == [] then 0 else (if bits[0] then 1 else 0) + 2 * LeNumber(bits[1..])
  }

  lemma {:induction false} LeNumberTells(a: seq<bool>, b: seq<bool>)
    requires |a| == |b| && LeNumber(a) == LeNumber(b)
    ensures a == b
  {
    if a != [] {
      assert LeNumber(a) % 2 == (if a[0] then 1 else 0) && LeNumber(b) % 2 == (if b[0] then 1 else 0);
      LeNumberTells(a[1..], b[1..]);
      assert a == [a[0]] + a[1..] && b == [b[0]] + b[1..];
    }
  }

  lemma {:induction false} LeNumberJoin(a: seq<bool>, b: seq<bool>)
    ensures LeNumber(a + b) == LeNumber(a) + ShiftLeft(LeNumber(b), |a|)
  {
    if a == [] {
      assert a + b == b;
    } else {
      LeNumberJoin(a[1..], b);
      assert (a + b)[1..] == a[1..] + b;
    }
  }

  lemma HalfNumber(x: bv32)
    ensures Number32(x) == (if LowBit(x) then 1 else 0) + 2 * Number32(Shr1(x))
  {
    hide Number32, Shr1, LowBit;
    HalvesJoin(x);
    DoubleNumber(Shr1(x));
  }

  lemma HalvesJoin(x: bv32)
    ensures x == (if LowBit(x) then (Shr1(x) << 1) | 1 else Shr1(x) << 1) && Shr1(x) < 0x8000_0000
  {
  }

  lemma DoubleNumber(h: bv32)
    requires h < 0x8000_0000
    ensures Number32(h << 1) == 2 * Number32(h)
    ensures Number32((h << 1) | 1) == 2 * Number32(h) + 1
  {
  }

  lemma {:induction false} NumberOfBits(x: bv32, n: nat)
    ensures Number32(x) == LeNumber(BitsOf(x, n)) + ShiftLeft(Number32(Shifts(x, n)), n)
    decreases n
  {
    hide Number32, Shr1, LowBit;
    if n > 0 {
      HalfNumber(x);
      NumberOfBits(Shr1(x), n - 1);
      assert BitsOf(x, n)[1..] == BitsOf(Shr1(x), n - 1);
    }
  }

  lemma WideNumber(x: bv8)
    ensures Number32(x as bv32) == Number8(x)
  {
  }

  lemma OctetNumber(b: byte)
    ensures LeNumber(BitsOf(Octet(b), 8)) == b
  {
    hide Number32, Number8, Bits8, BitsOf, Shifts, LeNumber, Octet;
    NumberOfBits(Octet(b), 8);
    OctetShiftsOut(b);
    Zero32();
    ShiftLeftUnit(0, 8);
    OctetWide(b);
  }

  lemma OctetWide(b: byte)
    ensures Number32(Octet(b)) == b
  {
    hide Number32, Number8, Bits8;
    WideNumber(Bits8(b));
    ByteAsBits(b);
  }

  lemma WholeNumber(x: bv32)
    ensures Number32(x) == LeNumber(BitsOf(x, 32))
  {
    hide Number32, BitsOf, Shifts, LeNumber;
    NumberOfBits(x, 32);
    AllShiftOut(x);
    Zero32();
    ShiftLeftUnit(0, 32);
  }

  /** The complement of a number of 32 bits. */
  lemma {:induction false} NotNumber(bits: seq<bool>)
    ensures LeNumber(bits) + LeNumber(Not(bits)) == Pow2(|bits|) - 1
  {
    if bits != [] {
      NotNumber(bits[1..]);
      assert Not(bits)[1..] == Not(bits[1..]);
    }
  }

  lemma ComplementedValue(x: bv32)
    ensures Number32(Xor(x, 0xFFFF_FFFF)) == 0xFFFF_FFFF - Number32(x)
  {
    hide Number32, BitsOf, Xor, LeNumber;
    WholeNumber(x);
    WholeNumber(Xor(x, 0xFFFF_FFFF));
    AllOnes();
    FlippedBits(x, 0xFFFF_FFFF, 32);
    BitsLength(x, 32);
    NotNumber(BitsOf(x, 32));
    Pow2Values();
  }

  lemma {:induction false} MessageNumber(s: seq<byte>)
    ensures LeNumber(MessageBits(s)) == LeValue(s)
  {
    hide Octet, BitsOf, LeNumber;
    if s == [] {
      NoBits();
    } else {
      assert s == [s[0]] + s[1..];
      MessageAppend([s[0]], s[1..]);
      FirstByteBits(s[0]);
      MessageNumber(s[1..]);
      OctetNumber(s[0]);
      BitsLength(Octet(s[0]), 8);
      LeNumberJoin(BitsOf(Octet(s[0]), 8), MessageBits(s[1..]));
      ShiftEight(LeNumber(MessageBits(s[1..])));
    }
  }

  lemma NoBits()
    ensures LeNumber([]) == 0
  {
  }

  lemma FirstByteBits(b: byte)
    ensures MessageBits([b]) == BitsOf(Octet(b), 8)
  {
    assert [b][..0] == [];
  }

  lemma ShiftFourTimes(v: nat)
    ensures ShiftLeft(v, 4) == 16 * v
  {
    assert ShiftLeft(v, 1) == 2 * v;
    assert ShiftLeft(v, 2) == 4 * v;
    assert ShiftLeft(v, 3) == 8 * v;
  }

  lemma ShiftEight(v: nat)
    ensures ShiftLeft(v, 8) == 0x100 * v
  {
    ShiftFourTimes(v);
    ShiftFourTimes(16 * v);
    ShiftLeftTwice(v, 4, 4);
  }

  // ----- the residue

  /** The bits of a word are the bits of its four bytes. */
  lemma WordMessage(x: bv32)
    ensures MessageBits(LeBytes(Number32(x), 4)) == BitsOf(x, 32)
  {
    hide Number32, BitsOf, LeNumber, MessageBits, LeBytes, LeValue;
    MessageNumber(LeBytes(Number32(x), 4));
    Le32(Number32(x));
    WholeNumber(x);
    MessageLength(LeBytes(Number32(x), 4));
    BitsLength(x, 32);
    LeNumberTells(MessageBits(LeBytes(Number32(x), 4)), BitsOf(x, 32));
  }

  lemma StepsSplit(c: bv32, n: nat)
    ensures Steps(c, 8 + n) == Steps(Step8(c), n)
  {
    hide Step8;
    EightSteps(c);
    StepsAdd(c, 8, n);
  }

  lemma {:induction false} StepsAdd(c: bv32, m: nat, n: nat)
    ensures Steps(Steps(c, m), n) == Steps(c, m + n)
    decreases m
  {
    hide Step;
    if m > 0 {
      StepsAdd(Step(c), m - 1, n);
    }
  }

  lemma Residue1()
    ensures Step8(0xFFFF_FFFF) == 0xAD82_ACAE
  {
  }

  lemma Residue2()
    ensures Step8(0xAD82_ACAE) == 0x0E9E_882D
  {
  }

  lemma Residue3()
    ensures Step8(0x0E9E_882D) == 0x9F9B_5C85
  {
  }

  lemma Residue4()
    ensures Step8(0x9F9B_5C85) == 0xB798_B438
  {
  }

  /** What a complemented register becomes in 32 steps. */
  lemma ThirtyTwoSteps()
    ensures Steps(0xFFFF_FFFF, 32) == 0xB798_B438
  {
    hide Step8, Steps;
    Residue1();
    Residue2();
    Residue3();
    Residue4();
    StepsSplit(0xFFFF_FFFF, 24);
    StepsSplit(0xAD82_ACAE, 16);
    StepsSplit(0x0E9E_882D, 8);
    EightSteps(0x9F9B_5C85);
  }

  lemma ResidueWord()
    ensures (0xB798_B438 as bv32) ^ 0xFFFF_FFFF == 0x4867_4BC7
  {
  }

  /** Every message followed by its own checksum has the same checksum. */
  lemma Residue(data: seq<byte>)
    ensures Checksum(data + LeBytes(Number32(Checksum(data, 0)), 4), 0) == 0x4867_4BC7
  {
    hide Divide, MessageBits, Flip, Number32, LeBytes, BitsOf, Steps, Shifts, Xor;
    var crc := Checksum(data, 0);
    var c := Divide(0xFFFF_FFFF, MessageBits(data));
    FlipIs(0);
    FlipIs(c);
    MessageAppend(data, LeBytes(Number32(crc), 4));
    WordMessage(crc);
    DivideAppend(0xFFFF_FFFF, MessageBits(data), BitsOf(crc, 32));
    FeedWord(c, crc, 32);
    AllShiftOut(crc);
    XorWith(c);
    XorItself(c);
    XorZero(Divide(c, BitsOf(crc, 32)));
    ThirtyTwoSteps();
    FlipIs(Divide(c, BitsOf(crc, 32)));
    ResidueWord();
  }

  lemma XorItself(c: bv32)
    ensures Xor(c, Xor(c, 0xFFFF_FFFF)) == 0xFFFF_FFFF
  {
  }
}
