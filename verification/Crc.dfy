/** `Crc32`: the table-driven CRC-32C (Castagnoli) and the bitwise division it stands for. */
module Crc {
  import opened Machine

  const POLYNOMIAL: bv32 := 0x82f63b78
  const ALL_ONES: bv32 := 0xffffffff

  // ----- named bit operations, so that proofs can leave them unexpanded

  function Xor(a: bv32, b: bv32): bv32 {
    a ^ b
  }

  function Shr1(x: bv32): bv32 {
    x >> 1
  }

  function Shr8(x: bv32): bv32 {
    x >> 8
  }

  function LowByte(x: bv32): bv32 {
    x & 0xFF
  }

  predicate LowBit(x: bv32) {
    x & 1 == 1
  }

  function Flip(x: bv32): bv32 {
    x ^ ALL_ONES
  }

  /** An unsigned byte, widened. */
  function Octet(b: byte): bv32 {
    Bits8(b) as bv32
  }

  // ----- the reference: one bit at a time

  /** One step of the reflected division: the low bit leaves, and takes the polynomial with it. */
  function Step(c: bv32): bv32 {
    if LowBit(c) then Xor(Shr1(c), POLYNOMIAL) else Shr1(c)
  }

  /** A message bit enters at the low end, then the register takes a step. */
  function Feed(c: bv32, bit: bool): bv32 {
    Step(if bit then Xor(c, 1) else c)
  }

  function Divide(c: bv32, bits: seq<bool>): bv32 {
    if bits == [] then c else Feed(Divide(c, bits[..|bits| - 1]), bits[|bits| - 1])
  }

  /** The `n` low bits, lowest first. */
  function BitsOf(x: bv32, n: nat): seq<bool>
    decreases n
  {
    if n == 0 then [] else [LowBit(x)] + BitsOf(Shr1(x), n - 1)
  }

  function MessageBits(data: seq<byte>): seq<bool> {
    if data == [] then [] else MessageBits(data[..|data| - 1]) + BitsOf(Octet(data[|data| - 1]), 8)
  }

  /** The checksum by division of the message, the register complemented before and after. */
  function Checksum(data: seq<byte>, seed: bv32): bv32 {
    Flip(Divide(Flip(seed), MessageBits(data)))
  }

  // ----- the table

  function Row0(i: bv32): bv32 {
    match i & 0xF
    case 0 => 0x00000000 case 1 => 0xf26b8303 case 2 => 0xe13b70f7 case 3 => 0x1350f3f4
    case 4 => 0xc79a971f case 5 => 0x35f1141c case 6 => 0x26a1e7e8 case 7 => 0xd4ca64eb
    case 8 => 0x8ad958cf case 9 => 0x78b2dbcc case 10 => 0x6be22838 case 11 => 0x9989ab3b
    case 12 => 0x4d43cfd0 case 13 => 0xbf284cd3 case 14 => 0xac78bf27 case _ => 0x5e133c24
  }

  function Row1(i: bv32): bv32 {
    match i & 0xF
    case 0 => 0x105ec76f case 1 => 0xe235446c case 2 => 0xf165b798 case 3 => 0x030e349b
    case 4 => 0xd7c45070 case 5 => 0x25afd373 case 6 => 0x36ff2087 case 7 => 0xc494a384
    case 8 => 0x9a879fa0 case 9 => 0x68ec1ca3 case 10 => 0x7bbcef57 case 11 => 0x89d76c54
    case 12 => 0x5d1d08bf case 13 => 0xaf768bbc case 14 => 0xbc267848 case _ => 0x4e4dfb4b
  }

  function Row2(i: bv32): bv32 {
    match i & 0xF
    case 0 => 0x20bd8ede case 1 => 0xd2d60ddd case 2 => 0xc186fe29 case 3 => 0x33ed7d2a
    case 4 => 0xe72719c1 case 5 => 0x154c9ac2 case 6 => 0x061c6936 case 7 => 0xf477ea35
    case 8 => 0xaa64d611 case 9 => 0x580f5512 case 10 => 0x4b5fa6e6 case 11 => 0xb93425e5
    case 12 => 0x6dfe410e case 13 => 0x9f95c20d case 14 => 0x8cc531f9 case _ => 0x7eaeb2fa
  }

  function Row3(i: bv32): bv32 {
    match i & 0xF
    case 0 => 0x30e349b1 case 1 => 0xc288cab2 case 2 => 0xd1d83946 case 3 => 0x23b3ba45
    case 4 => 0xf779deae case 5 => 0x05125dad case 6 => 0x1642ae59 case 7 => 0xe4292d5a
    case 8 => 0xba3a117e case 9 => 0x4851927d case 10 => 0x5b016189 case 11 => 0xa96ae28a
    case 12 => 0x7da08661 case 13 => 0x8fcb0562 case 14 => 0x9c9bf696 case _ => 0x6ef07595
  }

  function Row4(i: bv32): bv32 {
    match i & 0xF
    case 0 => 0x417b1dbc case 1 => 0xb3109ebf case 2 => 0xa0406d4b case 3 => 0x522bee48
    case 4 => 0x86e18aa3 case 5 => 0x748a09a0 case 6 => 0x67dafa54 case 7 => 0x95b17957
    case 8 => 0xcba24573 case 9 => 0x39c9c670 case 10 => 0x2a993584 case 11 => 0xd8f2b687
    case 12 => 0x0c38d26c case 13 => 0xfe53516f case 14 => 0xed03a29b case _ => 0x1f682198
  }

  function Row5(i: bv32): bv32 {
    match i & 0xF
    case 0 => 0x5125dad3 case 1 => 0xa34e59d0 case 2 => 0xb01eaa24 case 3 => 0x42752927
    case 4 => 0x96bf4dcc case 5 => 0x64d4cecf case 6 => 0x77843d3b case 7 => 0x85efbe38
    case 8 => 0xdbfc821c case 9 => 0x2997011f case 10 => 0x3ac7f2eb case 11 => 0xc8ac71e8
    case 12 => 0x1c661503 case 13 => 0xee0d9600 case 14 => 0xfd5d65f4 case _ => 0x0f36e6f7
  }

  function Row6(i: bv32): bv32 {
    match i & 0xF
    case 0 => 0x61c69362 case 1 => 0x93ad1061 case 2 => 0x80fde395 case 3 => 0x72966096
    case 4 => 0xa65c047d case 5 => 0x5437877e case 6 => 0x4767748a case 7 => 0xb50cf789
    case 8 => 0xeb1fcbad case 9 => 0x197448ae case 10 => 0x0a24bb5a case 11 => 0xf84f3859
    case 12 => 0x2c855cb2 case 13 => 0xdeeedfb1 case 14 => 0xcdbe2c45 case _ => 0x3fd5af46
  }

  function Row7(i: bv32): bv32 {
    match i & 0xF
    case 0 => 0x7198540d case 1 => 0x83f3d70e case 2 => 0x90a324fa case 3 => 0x62c8a7f9
    case 4 => 0xb602c312 case 5 => 0x44694011 case 6 => 0x5739b3e5 case 7 => 0xa55230e6
    case 8 => 0xfb410cc2 case 9 => 0x092a8fc1 case 10 => 0x1a7a7c35 case 11 => 0xe811ff36
    case 12 => 0x3cdb9bdd case 13 => 0xceb018de case 14 => 0xdde0eb2a case _ => 0x2f8b6829
  }

  function Row8(i: bv32): bv32 {
    match i & 0xF
    case 0 => 0x82f63b78 case 1 => 0x709db87b case 2 => 0x63cd4b8f case 3 => 0x91a6c88c
    case 4 => 0x456cac67 case 5 => 0xb7072f64 case 6 => 0xa457dc90 case 7 => 0x563c5f93
    case 8 => 0x082f63b7 case 9 => 0xfa44e0b4 case 10 => 0xe9141340 case 11 => 0x1b7f9043
    case 12 => 0xcfb5f4a8 case 13 => 0x3dde77ab case 14 => 0x2e8e845f case _ => 0xdce5075c
  }

  function Row9(i: bv32): bv32 {
    match i & 0xF
    case 0 => 0x92a8fc17 case 1 => 0x60c37f14 case 2 => 0x73938ce0 case 3 => 0x81f80fe3
    case 4 => 0x55326b08 case 5 => 0xa759e80b case 6 => 0xb4091bff case 7 => 0x466298fc
    case 8 => 0x1871a4d8 case 9 => 0xea1a27db case 10 => 0xf94ad42f case 11 => 0x0b21572c
    case 12 => 0xdfeb33c7 case 13 => 0x2d80b0c4 case 14 => 0x3ed04330 case _ => 0xccbbc033
  }

  function RowA(i: bv32): bv32 {
    match i & 0xF
    case 0 => 0xa24bb5a6 case 1 => 0x502036a5 case 2 => 0x4370c551 case 3 => 0xb11b4652
    case 4 => 0x65d122b9 case 5 => 0x97baa1ba case 6 => 0x84ea524e case 7 => 0x7681d14d
    case 8 => 0x2892ed69 case 9 => 0xdaf96e6a case 10 => 0xc9a99d9e case 11 => 0x3bc21e9d
    case 12 => 0xef087a76 case 13 => 0x1d63f975 case 14 => 0x0e330a81 case _ => 0xfc588982
  }

  function RowB(i: bv32): bv32 {
    match i & 0xF
    case 0 => 0xb21572c9 case 1 => 0x407ef1ca case 2 => 0x532e023e case 3 => 0xa145813d
    case 4 => 0x758fe5d6 case 5 => 0x87e466d5 case 6 => 0x94b49521 case 7 => 0x66df1622
    case 8 => 0x38cc2a06 case 9 => 0xcaa7a905 case 10 => 0xd9f75af1 case 11 => 0x2b9cd9f2
    case 12 => 0xff56bd19 case 13 => 0x0d3d3e1a case 14 => 0x1e6dcdee case _ => 0xec064eed
  }

  function RowC(i: bv32): bv32 {
    match i & 0xF
    case 0 => 0xc38d26c4 case 1 => 0x31e6a5c7 case 2 => 0x22b65633 case 3 => 0xd0ddd530
    case 4 => 0x0417b1db case 5 => 0xf67c32d8 case 6 => 0xe52cc12c case 7 => 0x1747422f
    case 8 => 0x49547e0b case 9 => 0xbb3ffd08 case 10 => 0xa86f0efc case 11 => 0x5a048dff
    case 12 => 0x8ecee914 case 13 => 0x7ca56a17 case 14 => 0x6ff599e3 case _ => 0x9d9e1ae0
  }

  function RowD(i: bv32): bv32 {
    match i & 0xF
    case 0 => 0xd3d3e1ab case 1 => 0x21b862a8 case 2 => 0x32e8915c case 3 => 0xc083125f
    case 4 => 0x144976b4 case 5 => 0xe622f5b7 case 6 => 0xf5720643 case 7 => 0x07198540
    case 8 => 0x590ab964 case 9 => 0xab613a67 case 10 => 0xb831c993 case 11 => 0x4a5a4a90
    case 12 => 0x9e902e7b case 13 => 0x6cfbad78 case 14 => 0x7fab5e8c case _ => 0x8dc0dd8f
  }

  function RowE(i: bv32): bv32 {
    match i & 0xF
    case 0 => 0xe330a81a case 1 => 0x115b2b19 case 2 => 0x020bd8ed case 3 => 0xf0605bee
    case 4 => 0x24aa3f05 case 5 => 0xd6c1bc06 case 6 => 0xc5914ff2 case 7 => 0x37faccf1
    case 8 => 0x69e9f0d5 case 9 => 0x9b8273d6 case 10 => 0x88d28022 case 11 => 0x7ab90321
    case 12 => 0xae7367ca case 13 => 0x5c18e4c9 case 14 => 0x4f48173d case _ => 0xbd23943e
  }

  function RowF(i: bv32): bv32 {
    match i & 0xF
    case 0 => 0xf36e6f75 case 1 => 0x0105ec76 case 2 => 0x12551f82 case 3 => 0xe03e9c81
    case 4 => 0x34f4f86a case 5 => 0xc69f7b69 case 6 => 0xd5cf889d case 7 => 0x27a40b9e
    case 8 => 0x79b737ba case 9 => 0x8bdcb4b9 case 10 => 0x988c474d case 11 => 0x6ae7c44e
    case 12 => 0xbe2da0a5 case 13 => 0x4c4623a6 case 14 => 0x5f16d052 case _ => 0xad7d5351
  }

  /** `Crc32Table`, a row for the high and an entry for the low half of the index. */
  function Crc32Table(i: bv32): bv32 {
    match i >> 4
    case 0 => Row0(i)
    case 1 => Row1(i)
    case 2 => Row2(i)
    case 3 => Row3(i)
    case 4 => Row4(i)
    case 5 => Row5(i)
    case 6 => Row6(i)
    case 7 => Row7(i)
    case 8 => Row8(i)
    case 9 => Row9(i)
    case 10 => RowA(i)
    case 11 => RowB(i)
    case 12 => RowC(i)
    case 13 => RowD(i)
    case 14 => RowE(i)
    case _ => RowF(i)
  }

  function Step8(c: bv32): bv32 {
    Step(Step(Step(Step(Step(Step(Step(Step(c))))))))
  }

  lemma Row0IsDivision(i: bv32)
    requires i >> 4 == 0
    ensures Row0(i) == Step8(i)
  {
  }

  lemma Row1IsDivision(i: bv32)
    requires i >> 4 == 1
    ensures Row1(i) == Step8(i)
  {
  }

  lemma Row2IsDivision(i: bv32)
    requires i >> 4 == 2
    ensures Row2(i) == Step8(i)
  {
  }

  lemma Row3IsDivision(i: bv32)
    requires i >> 4 == 3
    ensures Row3(i) == Step8(i)
  {
  }

  lemma Row4IsDivision(i: bv32)
    requires i >> 4 == 4
    ensures Row4(i) == Step8(i)
  {
  }

  lemma Row5IsDivision(i: bv32)
    requires i >> 4 == 5
    ensures Row5(i) == Step8(i)
  {
  }

  lemma Row6IsDivision(i: bv32)
    requires i >> 4 == 6
    ensures Row6(i) == Step8(i)
  {
  }

  lemma Row7IsDivision(i: bv32)
    requires i >> 4 == 7
    ensures Row7(i) == Step8(i)
  {
  }

  lemma Row8IsDivision(i: bv32)
    requires i >> 4 == 8
    ensures Row8(i) == Step8(i)
  {
  }

  lemma Row9IsDivision(i: bv32)
    requires i >> 4 == 9
    ensures Row9(i) == Step8(i)
  {
  }

  lemma RowAIsDivision(i: bv32)
    requires i >> 4 == 10
    ensures RowA(i) == Step8(i)
  {
  }

  lemma RowBIsDivision(i: bv32)
    requires i >> 4 == 11
    ensures RowB(i) == Step8(i)
  {
  }

  lemma RowCIsDivision(i: bv32)
    requires i >> 4 == 12
    ensures RowC(i) == Step8(i)
  {
  }

  lemma RowDIsDivision(i: bv32)
    requires i >> 4 == 13
    ensures RowD(i) == Step8(i)
  {
  }

  lemma RowEIsDivision(i: bv32)
    requires i >> 4 == 14
    ensures RowE(i) == Step8(i)
  {
  }

  lemma RowFIsDivision(i: bv32)
    requires i >> 4 == 15
    ensures RowF(i) == Step8(i)
  {
  }

  /** Every entry is its index divided for eight steps. */
  lemma TableIsDivision(i: bv32)
    requires i <= 0xFF
    ensures Crc32Table(i) == Step8(i)
  {
    hide Step8, Row0, Row1, Row2, Row3, Row4, Row5, Row6, Row7, Row8, Row9, RowA, RowB, RowC, RowD, RowE, RowF;
    match i >> 4
    case 0 => Row0IsDivision(i);
    case 1 => Row1IsDivision(i);
    case 2 => Row2IsDivision(i);
    case 3 => Row3IsDivision(i);
    case 4 => Row4IsDivision(i);
    case 5 => Row5IsDivision(i);
    case 6 => Row6IsDivision(i);
    case 7 => Row7IsDivision(i);
    case 8 => Row8IsDivision(i);
    case 9 => Row9IsDivision(i);
    case 10 => RowAIsDivision(i);
    case 11 => RowBIsDivision(i);
    case 12 => RowCIsDivision(i);
    case 13 => RowDIsDivision(i);
    case 14 => RowEIsDivision(i);
    case _ => RowFIsDivision(i);
  }

  // ----- the step is linear

  lemma XorAssociates(a: bv32, b: bv32, p: bv32)
    ensures Xor(a, Xor(b, p)) == Xor(Xor(a, b), p)
  {
  }

  lemma XorCommutes(a: bv32, b: bv32)
    ensures Xor(a, b) == Xor(b, a)
  {
  }

  lemma XorSwaps(a: bv32, b: bv32, p: bv32)
    ensures Xor(Xor(a, p), b) == Xor(Xor(a, b), p)
  {
    hide Xor;
    XorAssociates(a, p, b);
    XorCommutes(p, b);
    XorAssociates(a, b, p);
  }

  lemma XorTwice(a: bv32, p: bv32)
    ensures Xor(Xor(a, p), p) == a
  {
  }

  lemma XorCancels(a: bv32, b: bv32, p: bv32)
    ensures Xor(Xor(a, p), Xor(b, p)) == Xor(a, b)
  {
    hide Xor;
    XorAssociates(Xor(a, p), b, p);
    XorSwaps(a, b, p);
    XorTwice(Xor(a, b), p);
  }

  lemma ShiftXor(a: bv32, b: bv32)
    ensures Shr1(Xor(a, b)) == Xor(Shr1(a), Shr1(b))
    ensures LowBit(Xor(a, b)) == (LowBit(a) != LowBit(b))
  {
  }

  lemma StepIsLinear(a: bv32, b: bv32)
    ensures Step(Xor(a, b)) == Xor(Step(a), Step(b))
  {
    hide Xor, Shr1, LowBit;
    ShiftXor(a, b);
    XorCancels(Shr1(a), Shr1(b), POLYNOMIAL);
    XorAssociates(Shr1(a), Shr1(b), POLYNOMIAL);
    XorSwaps(Shr1(a), Shr1(b), POLYNOMIAL);
  }

  lemma Step8IsLinear(a: bv32, b: bv32)
    ensures Step8(Xor(a, b)) == Xor(Step8(a), Step8(b))
  {
    hide Step, Xor;
    var a1, b1 := Step(a), Step(b);
    var a2, b2 := Step(a1), Step(b1);
    var a3, b3 := Step(a2), Step(b2);
    var a4, b4 := Step(a3), Step(b3);
    var a5, b5 := Step(a4), Step(b4);
    var a6, b6 := Step(a5), Step(b5);
    StepIsLinear(a, b);
    StepIsLinear(a1, b1);
    StepIsLinear(a2, b2);
    StepIsLinear(a3, b3);
    StepIsLinear(a4, b4);
    StepIsLinear(a5, b5);
    StepIsLinear(a6, b6);
    StepIsLinear(Step(a6), Step(b6));
  }

  /** A register whose low byte is clear only shifts. */
  lemma HighPartShifts(y: bv32)
    requires LowByte(y) == 0
    ensures Step8(y) == Shr8(y)
  {
    assert Step(y) == y >> 1;
    assert Step(y >> 1) == y >> 2;
    assert Step(y >> 2) == y >> 3;
    assert Step(y >> 3) == y >> 4;
    assert Step(y >> 4) == y >> 5;
    assert Step(y >> 5) == y >> 6;
    assert Step(y >> 6) == y >> 7;
    assert Step(y >> 7) == y >> 8;
  }

  function HighPart(x: bv32): bv32 {
    x & 0xFFFFFF00
  }

  lemma SplitLowByte(x: bv32)
    ensures x == Xor(HighPart(x), LowByte(x))
    ensures LowByte(HighPart(x)) == 0 && Shr8(HighPart(x)) == Shr8(x) && LowByte(x) <= 0xFF
  {
  }

  /** Eight steps at once: shift a byte out and add its table entry. */
  lemma ByteStep(x: bv32)
    ensures Step8(x) == Xor(Shr8(x), Crc32Table(LowByte(x)))
  {
    hide Step8, Crc32Table, Xor, Shr8, LowByte, HighPart;
    SplitLowByte(x);
    Step8IsLinear(HighPart(x), LowByte(x));
    HighPartShifts(HighPart(x));
    TableIsDivision(LowByte(x));
  }

  // ----- bits one by one or eight at once

  function ClearLowBit(r: bv32): bv32 {
    r & 0xFFFFFFFE
  }

  lemma SplitLowBit(c: bv32, r: bv32)
    ensures Xor(c, r) == Xor(if LowBit(r) then Xor(c, 1) else c, ClearLowBit(r))
    ensures !LowBit(ClearLowBit(r)) && Shr1(ClearLowBit(r)) == Shr1(r)
  {
  }

  /** Bits still to come may as well be in the register already. */
  lemma FeedAhead(c: bv32, r: bv32)
    ensures Step(Xor(c, r)) == Xor(Feed(c, LowBit(r)), Shr1(r))
  {
    hide Xor, Shr1, LowBit, ClearLowBit;
    SplitLowBit(c, r);
    StepIsLinear(if LowBit(r) then Xor(c, 1) else c, ClearLowBit(r));
  }

  function Steps(c: bv32, n: nat): bv32
    decreases n
  {
    if n == 0 then c else Steps(Step(c), n - 1)
  }

  function Shifts(c: bv32, n: nat): bv32
    decreases n
  {
    if n == 0 then c else Shifts(Shr1(c), n - 1)
  }

  lemma {:induction false} DivideFront(c: bv32, bit: bool, bits: seq<bool>)
    ensures Divide(c, [bit] + bits) == Divide(Feed(c, bit), bits)
  {
    hide Feed;
    if bits == [] {
      assert ([bit] + bits)[..0] == [] && ([bit] + bits)[0] == bit;
    } else {
      DivideFront(c, bit, bits[..|bits| - 1]);
      assert ([bit] + bits)[..|bits|] == [bit] + bits[..|bits| - 1];
      assert ([bit] + bits)[|bits|] == bits[|bits| - 1];
    }
  }

  /** Feeding `n` low bits of a word one by one is `n` steps of register and word together. */
  lemma {:induction false} FeedWord(c: bv32, r: bv32, n: nat)
    ensures Steps(Xor(c, r), n) == Xor(Divide(c, BitsOf(r, n)), Shifts(r, n))
    decreases n
  {
    hide Xor, Shr1, LowBit, Feed, Step;
    if n == 0 {
    } else {
      FeedAhead(c, r);
      FeedWord(Feed(c, LowBit(r)), Shr1(r), n - 1);
      DivideFront(c, LowBit(r), BitsOf(Shr1(r), n - 1));
    }
  }

  lemma EightSteps(c: bv32)
    ensures Steps(c, 8) == Step8(c)
  {
    hide Step;
    var c1 := Step(c);
    var c2 := Step(c1);
    var c3 := Step(c2);
    var c4 := Step(c3);
    assert Steps(c, 8) == Steps(c1, 7) == Steps(c2, 6) == Steps(c3, 5) == Steps(c4, 4);
    var c5 := Step(c4);
    var c6 := Step(c5);
    assert Steps(c4, 4) == Steps(c5, 3) == Steps(c6, 2) == Steps(Step(c6), 1);
  }

  lemma OctetShiftsOut(b: byte)
    ensures Shifts(Octet(b), 8) == 0 == Shr8(Octet(b))
  {
    var o := Octet(b);
    assert o <= 0xFF;
    ShiftOut(o);
  }

  lemma ShiftOut(o: bv32)
    requires o <= 0xFF
    ensures Shifts(o, 8) == 0 == Shr8(o)
  {
    assert Shr1(o) <= 0x7F;
    var o2 := Shr1(Shr1(o));
    assert o2 <= 0x3F;
    var o4 := Shr1(Shr1(o2));
    assert o4 <= 0x0F;
    assert Shifts(o, 8) == Shifts(Shr1(o), 7) == Shifts(o2, 6) == Shifts(Shr1(o2), 5) == Shifts(o4, 4);
    var o6 := Shr1(Shr1(o4));
    assert o6 <= 0x03;
    assert Shifts(o4, 4) == Shifts(Shr1(o4), 3) == Shifts(o6, 2) == Shifts(Shr1(o6), 1);
  }

  lemma XorZero(x: bv32)
    ensures Xor(x, 0) == x
  {
  }

  lemma {:induction false} DivideAppend(c: bv32, a: seq<bool>, b: seq<bool>)
    ensures Divide(c, a + b) == Divide(Divide(c, a), b)
  {
    hide Feed;
    if b == [] {
      assert a + b == a;
    } else {
      DivideAppend(c, a, b[..|b| - 1]);
      assert (a + b)[..|a + b| - 1] == a + b[..|b| - 1];
    }
  }

  lemma ShiftIgnoresOctet(c: bv32, o: bv32)
    requires Shr8(o) == 0
    ensures Shr8(Xor(c, o)) == Shr8(c)
  {
  }

  /** The table step is the division of one more byte. */
  lemma TableStep(c: bv32, b: byte)
    ensures Divide(c, BitsOf(Octet(b), 8)) == Xor(Shr8(c), Crc32Table(LowByte(Xor(c, Octet(b)))))
  {
    hide Step8, Divide, BitsOf, Crc32Table, Octet, Xor, Shr8, LowByte, Steps, Shifts;
    var o := Octet(b);
    FeedWord(c, o, 8);
    OctetShiftsOut(b);
    XorZero(Divide(c, BitsOf(o, 8)));
    EightSteps(Xor(c, o));
    ByteStep(Xor(c, o));
    ShiftIgnoresOctet(c, o);
  }

  lemma OneMoreByte(c: bv32, data: seq<byte>, i: nat)
    requires i < |data|
    ensures MessageBits(data[..i + 1]) == MessageBits(data[..i]) + BitsOf(Octet(data[i]), 8)
    ensures Divide(c, MessageBits(data[..i + 1]))
         == Divide(Divide(c, MessageBits(data[..i])), BitsOf(Octet(data[i]), 8))
  {
    hide Divide, BitsOf, Octet;
    assert data[..i + 1][..i] == data[..i];
    DivideAppend(c, MessageBits(data[..i]), BitsOf(Octet(data[i]), 8));
  }

  lemma NothingDivided(c: bv32)
    ensures Divide(c, MessageBits([])) == c
  {
  }

  /** `Crc32`: for every byte sequence and seed, the division of its bits. */
  method Crc32(data: seq<byte>, seed: bv32) returns (crc: bv32)
    ensures crc == Checksum(data, seed)
  {
    hide Divide, MessageBits, BitsOf, Crc32Table, Octet, Xor, Shr8, LowByte, Flip;
    crc := Flip(seed);
    NothingDivided(crc);
    assert data[..0] == [];
    for i := 0 to |data|
      invariant crc == Divide(Flip(seed), MessageBits(data[..i]))
    {
      OneMoreByte(Flip(seed), data, i);
      TableStep(crc, data[i]);
      crc := Xor(Shr8(crc), Crc32Table(LowByte(Xor(crc, Octet(data[i])))));
    }
    assert data[..|data|] == data;
    crc := Flip(crc);
  }

  lemma JoinBits(a: seq<bool>, b: seq<bool>, c: seq<bool>)
    ensures (a + b) + c == a + (b + c)
  {
  }

  lemma {:induction false} MessageAppend(a: seq<byte>, b: seq<byte>)
    ensures MessageBits(a + b) == MessageBits(a) + MessageBits(b)
  {
    hide BitsOf, Octet;
    if b == [] {
      assert a + b == a;
    } else {
      var n := |b| - 1;
      MessageAppend(a, b[..n]);
      assert (a + b)[..|a + b| - 1] == a + b[..n] && (a + b)[|a + b| - 1] == b[n];
      JoinBits(MessageBits(a), MessageBits(b[..n]), BitsOf(Octet(b[n]), 8));
    }
  }

  lemma FlipTwice(x: bv32)
    ensures Flip(Flip(x)) == x
  {
  }

  /** A checksum can be continued: the result so far is the seed for the rest. */
  lemma Chains(a: seq<byte>, b: seq<byte>, seed: bv32)
    ensures Checksum(b, Checksum(a, seed)) == Checksum(a + b, seed)
  {
    hide Divide, Flip, MessageBits;
    MessageAppend(a, b);
    DivideAppend(Flip(seed), MessageBits(a), MessageBits(b));
    FlipTwice(Divide(Flip(seed), MessageBits(a)));
  }

  // ----- what a checksum tells apart

  lemma StepIsInjective(a: bv32, b: bv32)
    requires Step(a) == Step(b)
    ensures a == b
  {
    assert LowBit(a) == (Step(a) & 0x80000000 != 0);
    assert LowBit(b) == (Step(b) & 0x80000000 != 0);
  }

  lemma XorIsInjective(a: bv32, b: bv32, p: bv32)
    ensures Xor(a, p) == Xor(b, p) ==> a == b
    ensures Xor(p, a) == Xor(p, b) ==> a == b
  {
  }

  lemma {:induction false} StepsAreInjective(a: bv32, b: bv32, n: nat)
    requires Steps(a, n) == Steps(b, n)
    ensures a == b
    decreases n
  {
    hide Step;
    if n > 0 {
      StepsAreInjective(Step(a), Step(b), n - 1);
      StepIsInjective(a, b);
    }
  }

  function Push(w: bv32, bit: bool): bv32 {
    if bit then (w << 1) ^ 1 else w << 1
  }

  /** The word whose low bits, lowest first, are the given ones. */
  function WordOf(bits: seq<bool>): bv32 {
    if bits == [] then 0 else Push(WordOf(bits[1..]), bits[0])
  }

  lemma PushedWord(w: bv32, bit: bool)
    requires w < 0x8000_0000
    ensures Shr1(Push(w, bit)) == w && LowBit(Push(w, bit)) == bit
  {
  }

  lemma {:induction false} ShiftsAdd(x: bv32, m: nat, n: nat)
    ensures Shifts(Shifts(x, m), n) == Shifts(x, m + n)
    decreases m
  {
    hide Shr1;
    if m > 0 {
      ShiftsAdd(Shr1(x), m - 1, n);
    }
  }

  lemma ShrOrder(x: bv32, y: bv32)
    requires x <= y
    ensures Shr1(x) <= Shr1(y)
  {
  }

  lemma {:induction false} ShiftsOrder(x: bv32, y: bv32, n: nat)
    requires x <= y
    ensures Shifts(x, n) <= Shifts(y, n)
    decreases n
  {
    hide Shr1;
    if n > 0 {
      ShrOrder(x, y);
      ShiftsOrder(Shr1(x), Shr1(y), n - 1);
    }
  }

  lemma {:induction false} ZeroShifts(n: nat)
    ensures Shifts(0, n) == 0
    decreases n
  {
    if n > 0 {
      assert Shr1(0) == 0;
      ZeroShifts(n - 1);
    }
  }

  /** A word that is shifted out in less than 32 places has its top bit clear. */
  lemma TopBitClear(x: bv32, n: nat)
    requires n <= 31 && Shifts(x, n) == 0
    ensures x < 0x8000_0000
  {
    hide Shr1, Shifts;
    if 0x8000_0000 <= x {
      ShiftsOrder(0x8000_0000, x, n);
      ZeroIsLeast(Shifts(0x8000_0000, n));
      ShiftsAdd(0x8000_0000, n, 31 - n);
      ZeroShifts(31 - n);
      TopBitReachesOne();
    }
  }

  lemma ZeroIsLeast(x: bv32)
    ensures x <= 0 ==> x == 0
  {
  }

  lemma ShiftFour(x: bv32)
    ensures Shifts(x, 4) == x >> 4
  {
    hide Shr1;
    assert Shifts(x, 4) == Shifts(Shr1(x), 3) == Shifts(Shr1(Shr1(x)), 2) == Shifts(Shr1(Shr1(Shr1(x))), 1);
    FourShifts(x);
  }

  lemma FourShifts(x: bv32)
    ensures Shr1(Shr1(Shr1(Shr1(x)))) == x >> 4
  {
  }

  lemma NextFour(x: bv32, y: bv32, m: nat)
    requires Shifts(x, m) == y
    ensures Shifts(x, m + 4) == y >> 4
  {
    hide Shifts;
    ShiftsAdd(x, m, 4);
    ShiftFour(y);
  }

  lemma TopBitReachesOne()
    ensures Shifts(0x8000_0000, 31) == 1
  {
    var top: bv32 := 0x8000_0000;
    ShiftFour(top);
    NextFour(top, 0x800_0000, 4);
    NextFour(top, 0x80_0000, 8);
    NextFour(top, 0x8_0000, 12);
    NextFour(top, 0x8000, 16);
    NextFour(top, 0x800, 20);
    NextFour(top, 0x80, 24);
    ShiftsAdd(top, 28, 3);
    assert Shr1(8) == 4 && Shr1(4) == 2 && Shr1(2) == 1;
    assert Shifts(8, 3) == Shifts(4, 2) == Shifts(2, 1) == 1;
  }

  lemma {:induction false} WordHasBits(bits: seq<bool>)
    requires |bits| <= 32
    ensures BitsOf(WordOf(bits), |bits|) == bits && Shifts(WordOf(bits), |bits|) == 0
  {
    hide Shr1, LowBit, Push;
    if bits == [] {
    } else {
      WordHasBits(bits[1..]);
      TopBitClear(WordOf(bits[1..]), |bits| - 1);
      PushedWord(WordOf(bits[1..]), bits[0]);
    }
  }

  /** Division tells any two ends of at most 32 bits apart. */
  lemma DivideTells(c: bv32, u: seq<bool>, v: seq<bool>)
    requires |u| == |v| <= 32 && Divide(c, u) == Divide(c, v)
    ensures u == v
  {
    hide Divide, Steps, Shifts, BitsOf, WordOf, Xor;
    WordHasBits(u);
    WordHasBits(v);
    FeedWord(c, WordOf(u), |u|);
    FeedWord(c, WordOf(v), |v|);
    StepsAreInjective(Xor(c, WordOf(u)), Xor(c, WordOf(v)), |u|);
    XorIsInjective(WordOf(u), WordOf(v), c);
  }

  lemma {:induction false} BitsTell(x: bv32, y: bv32, n: nat)
    requires BitsOf(x, n) == BitsOf(y, n) && Shifts(x, n) == Shifts(y, n)
    ensures x == y
    decreases n
  {
    hide Shr1, LowBit;
    if n > 0 {
      assert BitsOf(x, n)[0] == LowBit(x) && BitsOf(y, n)[0] == LowBit(y);
      assert BitsOf(x, n)[1..] == BitsOf(Shr1(x), n - 1) && BitsOf(y, n)[1..] == BitsOf(Shr1(y), n - 1);
      BitsTell(Shr1(x), Shr1(y), n - 1);
      ShrAndLowTell(x, y);
    }
  }

  lemma LowBitAndRest(x: bv32)
    ensures x == Xor(Shr1(x) << 1, if LowBit(x) then 1 else 0)
  {
  }

  lemma ShrAndLowTell(x: bv32, y: bv32)
    requires Shr1(x) == Shr1(y) && LowBit(x) == LowBit(y)
    ensures x == y
  {
    hide Shr1, LowBit, Xor;
    LowBitAndRest(x);
    LowBitAndRest(y);
  }

  lemma WideningTells(x: bv8, y: bv8)
    requires x as bv32 == y as bv32
    ensures x == y
  {
  }

  lemma OctetTells(a: byte, b: byte)
    requires Octet(a) == Octet(b)
    ensures a == b
  {
    hide Bits8, Number8;
    WideningTells(Bits8(a), Bits8(b));
    ByteAsBits(a);
    ByteAsBits(b);
  }

  lemma LastByteTells(x: byte, y: byte)
    requires BitsOf(Octet(x), 8) == BitsOf(Octet(y), 8)
    ensures x == y
  {
    hide Octet, Shifts, BitsOf;
    OctetShiftsOut(x);
    OctetShiftsOut(y);
    BitsTell(Octet(x), Octet(y), 8);
    OctetTells(x, y);
  }

  lemma MessageEnd(x: seq<byte>)
    requires x != []
    ensures var n := |x| - 1;
            MessageBits(x) == MessageBits(x[..n]) + BitsOf(Octet(x[n]), 8) && |MessageBits(x[..n])| == 8 * n
  {
    hide Octet, BitsOf;
    MessageLength(x[..|x| - 1]);
  }

  lemma {:induction false} MessageTells(x: seq<byte>, y: seq<byte>)
    requires |x| == |y| && MessageBits(x) == MessageBits(y)
    ensures x == y
  {
    hide Octet, Shifts, BitsOf, MessageBits;
    if x == [] {
    } else {
      var n := |x| - 1;
      MessageEnd(x);
      MessageEnd(y);
      assert MessageBits(x)[..8 * n] == MessageBits(x[..n]) && MessageBits(y)[..8 * n] == MessageBits(y[..n]);
      assert MessageBits(x)[8 * n..] == BitsOf(Octet(x[n]), 8) && MessageBits(y)[8 * n..] == BitsOf(Octet(y[n]), 8);
      MessageTells(x[..n], y[..n]);
      LastByteTells(x[n], y[n]);
      assert x == x[..n] + [x[n]] && y == y[..n] + [y[n]];
    }
  }

  lemma {:induction false} BitsLength(x: bv32, n: nat)
    ensures |BitsOf(x, n)| == n
    decreases n
  {
    hide Shr1, LowBit;
    if n > 0 {
      BitsLength(Shr1(x), n - 1);
    }
  }

  lemma {:induction false} MessageLength(data: seq<byte>)
    ensures |MessageBits(data)| == 8 * |data|
  {
    hide BitsOf, Octet;
    if data != [] {
      MessageLength(data[..|data| - 1]);
      BitsLength(Octet(data[|data| - 1]), 8);
    }
  }

  /** Messages that agree but for their last four bytes at most never share a checksum. */
  lemma ChecksumTells(a: seq<byte>, x: seq<byte>, y: seq<byte>, seed: bv32)
    requires |x| == |y| <= 4 && Checksum(a + x, seed) == Checksum(a + y, seed)
    ensures x == y
  {
    hide Divide, MessageBits, Flip;
    MessageAppend(a, x);
    MessageAppend(a, y);
    MessageLength(x);
    MessageLength(y);
    var c := Divide(Flip(seed), MessageBits(a));
    DivideAppend(Flip(seed), MessageBits(a), MessageBits(x));
    DivideAppend(Flip(seed), MessageBits(a), MessageBits(y));
    FlipTwice(Divide(c, MessageBits(x)));
    FlipTwice(Divide(c, MessageBits(y)));
    DivideTells(c, MessageBits(x), MessageBits(y));
    MessageTells(x, y);
  }
}
