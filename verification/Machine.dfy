/** Machine integers, little-endian bytes and the outcomes of a C++ call. */
module Machine {

  const TWO_31: int := 0x8000_0000
  const TWO_32: int := 0x1_0000_0000
  const TWO_64: int := 0x1_0000_0000_0000_0000

  /** DuckDB's number of rows in a data chunk. */
  const STANDARD_VECTOR_SIZE: nat := 2048

  type byte = b: int | 0 <= b < 0x100
  type uint16 = w: int | 0 <= w < 0x1_0000
  type uint32 = w: int | 0 <= w < 0x1_0000_0000
  type uint64 = w: int | 0 <= w < 0x1_0000_0000_0000_0000

  datatype Option<+T> = None | Some(value: T)

  /** `Threw` stands for a C++ exception that leaves the call. */
  datatype Result<+T> = Returned(value: T) | Threw

  /** `Undefined` stands for a run whose behaviour C++ does not define:
      a null pointer followed, an element read outside its container. */
  datatype Outcome<+T> = Defined(value: T) | Undefined

  function Wrap32(x: int): uint32 {
    x % TWO_32
  }

  function Wrap64(x: int): uint64 {
    x % TWO_64
  }

  /** The conversion of an unsigned value to a 32-bit `int`. */
  function ToInt32(x: nat): int {
    var low := x % TWO_32;
    if low < TWO_31 then low else low - TWO_32
  }

  function Min(a: int, b: int): int {
    if a <= b then a else b
  }

  function Pow2(n: nat): (p: nat)
    ensures p > 0
  {
    if n == 0 then 1 else 2 * Pow2(n - 1)
  }

  lemma {:induction false} Pow2Add(a: nat, b: nat)
    ensures Pow2(a + b) == Pow2(a) * Pow2(b)
  {
    if a == 0 {
    } else {
      Pow2Add(a - 1, b);
      assert Pow2(a + b) == 2 * (Pow2(a - 1) * Pow2(b)) == (2 * Pow2(a - 1)) * Pow2(b);
    }
  }

  /** `v << n` without overflow. */
  function ShiftLeft(v: nat, n: nat): nat {
    if n == 0 then v else 2 * ShiftLeft(v, n - 1)
  }

  lemma {:induction false} ShiftLeftSum(a: nat, b: nat, n: nat)
    ensures ShiftLeft(a + b, n) == ShiftLeft(a, n) + ShiftLeft(b, n)
  {
    if n == 0 {
    } else {
      ShiftLeftSum(a, b, n - 1);
    }
  }

  lemma {:induction false} ShiftLeftTwice(a: nat, m: nat, n: nat)
    ensures ShiftLeft(ShiftLeft(a, m), n) == ShiftLeft(a, m + n)
  {
    if n == 0 {
    } else {
      ShiftLeftTwice(a, m, n - 1);
    }
  }

  lemma {:induction false} ShiftLeftOrder(a: nat, b: nat, n: nat)
    ensures a <= ShiftLeft(a, n)
    ensures a < b <==> ShiftLeft(a, n) < ShiftLeft(b, n)
  {
    if n == 0 {
    } else {
      ShiftLeftOrder(a, b, n - 1);
    }
  }

  lemma {:induction false} ShiftLeftUnit(m: nat, n: nat)
    ensures ShiftLeft(0, n) == 0
    ensures ShiftLeft(1, n) == Pow2(n)
    ensures ShiftLeft(Pow2(m), n) == Pow2(m + n)
  {
    if n == 0 {
    } else {
      ShiftLeftUnit(m, n - 1);
    }
  }

  /** `v >> n`. */
  function ShiftRight(v: nat, n: nat): nat {
    if n == 0 then v else ShiftRight(v / 2, n - 1)
  }

  /** `v & ((1 << n) - 1)`: the low `n` bits. */
  function LowPart(v: nat, n: nat): nat {
    if n == 0 then 0 else v % 2 + 2 * LowPart(v / 2, n - 1)
  }

  lemma {:induction false} SplitAt(v: nat, n: nat)
    ensures LowPart(v, n) < Pow2(n)
    ensures v == LowPart(v, n) + ShiftLeft(ShiftRight(v, n), n)
  {
    if n == 0 {
    } else {
      SplitAt(v / 2, n - 1);
    }
  }

  /** The parts of a value put together from two are those two. */
  lemma {:induction false} SplitJoined(low: nat, high: nat, n: nat)
    requires low < Pow2(n)
    ensures LowPart(low + ShiftLeft(high, n), n) == low
    ensures ShiftRight(low + ShiftLeft(high, n), n) == high
  {
    if n == 0 {
    } else {
      SplitJoined(low / 2, high, n - 1);
      var v := low + 2 * ShiftLeft(high, n - 1);
      assert v / 2 == low / 2 + ShiftLeft(high, n - 1) && v % 2 == low % 2;
    }
  }

  lemma {:induction false} ShiftRightTwice(v: nat, m: nat, n: nat)
    ensures ShiftRight(ShiftRight(v, m), n) == ShiftRight(v, m + n)
  {
    if m == 0 {
    } else {
      ShiftRightTwice(v / 2, m - 1, n);
    }
  }

  lemma Pow2Values()
    ensures Pow2(4) == 16
    ensures Pow2(8) == 0x100
    ensures Pow2(15) == 0x8000
    ensures Pow2(16) == 0x1_0000
    ensures Pow2(32) == TWO_32
    ensures Pow2(64) == TWO_64
  {
    assert Pow2(4) == 2 * Pow2(3) == 4 * Pow2(2) == 16;
    Pow2Add(4, 4);
    Pow2Add(8, 4);
    assert Pow2(3) == 8;
    Pow2Add(12, 3);
    Pow2Add(8, 8);
    Pow2Add(16, 16);
    Pow2Add(32, 32);
  }

  /** One bit of a 32-bit word is the sign of an `int`. */
  lemma SignBit()
    ensures Pow2(31) == TWO_31
  {
    Pow2Values();
    assert Pow2(32) == 2 * Pow2(31);
  }

  lemma ModUnique(v: int, m: int, q: int, r: int)
    requires m > 0 && 0 <= r < m && v == m * q + r
    ensures v % m == r && v / m == q
  {
    var q1, r1 := v / m, v % m;
    var d := q - q1;
    assert v == m * q1 + r1;
    assert m * d == m * q - m * q1 == r1 - r;
    if d >= 1 {
      AtLeast(m, d);
    }
  }

  lemma AtLeast(m: nat, d: nat)
    requires d >= 1
    ensures m * d >= m
  {
  }

  /** All parts, one after the other. */
  function Concat<T>(parts: seq<seq<T>>): seq<T> {
    if parts == [] then [] else parts[0] + Concat(parts[1..])
  }

  lemma {:induction false} ConcatAppend<T>(a: seq<seq<T>>, b: seq<seq<T>>)
    ensures Concat(a + b) == Concat(a) + Concat(b)
  {
    if a == [] {
      assert a + b == b;
    } else {
      ConcatAppend(a[1..], b);
      assert (a + b)[0] == a[0] && (a + b)[1..] == a[1..] + b;
      assert a[0] + (Concat(a[1..]) + Concat(b)) == (a[0] + Concat(a[1..])) + Concat(b);
    }
  }

  lemma ConcatSnoc<T>(a: seq<seq<T>>, last: seq<T>)
    ensures Concat(a + [last]) == Concat(a) + last
  {
    ConcatAppend(a, [last]);
    assert [last][1..] == [];
    assert Concat([last]) == last + [];
  }

  /** The low `n` bytes of `x`, least significant first. */
  function LeBytes(x: nat, n: nat): (s: seq<byte>)
    ensures |s| == n
  {
    if n == 0 then [] else [x % 0x100] + LeBytes(x / 0x100, n - 1)
  }

  function LeValue(s: seq<byte>): nat {
    if s == [] then 0 else s[0] + 0x100 * LeValue(s[1..])
  }

  lemma {:induction false} LeValueBound(s: seq<byte>)
    ensures LeValue(s) < Pow2(8 * |s|)
  {
    if s == [] {
    } else {
      LeValueBound(s[1..]);
      Pow2Add(8, 8 * |s[1..]|);
      Pow2Values();
    }
  }

  lemma {:induction false} LeRoundTrip(x: nat, n: nat)
    requires x < Pow2(8 * n)
    ensures LeValue(LeBytes(x, n)) == x
  {
    if n == 0 {
    } else {
      Pow2Add(8, 8 * (n - 1));
      Pow2Values();
      LeRoundTrip(x / 0x100, n - 1);
      assert LeBytes(x, n)[1..] == LeBytes(x / 0x100, n - 1);
    }
  }

  lemma {:induction false} LeWritten(s: seq<byte>)
    ensures LeBytes(LeValue(s), |s|) == s
  {
    if s == [] {
    } else {
      LeWritten(s[1..]);
    }
  }

  lemma Le16(x: uint16)
    ensures LeValue(LeBytes(x, 2)) == x
  {
    Pow2Values();
    LeRoundTrip(x, 2);
  }

  lemma Le32(x: uint32)
    ensures LeValue(LeBytes(x, 4)) == x
  {
    Pow2Values();
    LeRoundTrip(x, 4);
  }

  lemma Le64(x: uint64)
    ensures LeValue(LeBytes(x, 8)) == x
  {
    Pow2Values();
    LeRoundTrip(x, 8);
  }

  lemma LeWidth(s: seq<byte>)
    ensures |s| == 2 ==> LeValue(s) < 0x1_0000
    ensures |s| == 4 ==> LeValue(s) < TWO_32
    ensures |s| == 8 ==> LeValue(s) < TWO_64
  {
    Pow2Values();
    LeValueBound(s);
  }

  // ----- numbers and their bits, named so that proofs can leave the conversions alone

  function Bits8(a: byte): bv8 {
    a as bv8
  }

  function Number8(x: bv8): byte {
    x as int
  }

  function Bits32(a: uint32): bv32 {
    a as bv32
  }

  function Number32(x: bv32): uint32 {
    x as int
  }

  lemma OneUp8(x: bv8)
    requires x < 0xFF
    ensures Number8(x + 1) == Number8(x) + 1
  {
  }

  lemma Zero8()
    ensures Number8(0) == 0
  {
  }

  lemma Below8(x: bv8)
    requires Number8(x) < 0xFF
    ensures x < 0xFF
  {
  }

  lemma {:induction false} SomeBits8(a: byte) returns (x: bv8)
    ensures Number8(x) == a
  {
    hide Number8;
    if a == 0 {
      x := 0;
      Zero8();
    } else {
      x := SomeBits8(a - 1);
      Below8(x);
      OneUp8(x);
      x := x + 1;
    }
  }

  lemma BackToBits8(x: bv8)
    ensures Bits8(Number8(x)) == x
  {
  }

  /** A byte is the number of its bits. */
  lemma ByteAsBits(a: byte)
    ensures Number8(Bits8(a)) == a
  {
    hide Number8, Bits8;
    var x := SomeBits8(a);
    BackToBits8(x);
  }

  lemma Double32(x: bv32)
    requires x < 0x4000_0000
    ensures Number32(x << 1) == 2 * Number32(x)
    ensures Number32((x << 1) | 1) == 2 * Number32(x) + 1
  {
  }

  lemma BackToBits32(x: bv32)
    ensures Bits32(Number32(x)) == x
  {
  }

  lemma Below28(x: bv32)
    requires Number32(x) < 0x1000_0000
    ensures x < 0x1000_0000
  {
  }

  lemma Zero32()
    ensures Number32(0) == 0
  {
  }
}
