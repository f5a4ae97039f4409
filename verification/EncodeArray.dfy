/** `decompress_encode_array`: the stored nibbles and the table of 256 lengths. */
module EncodeArray {
  import opened Machine
  import opened CanonicalCode

  /** The bytes that store the first `2n` lengths: the even one in the low nibble. */
  function PackedNibbles(t: LengthTable, n: nat): (bytes: seq<byte>)
    requires n <= 128
    ensures |bytes| == n
  {
    seq(n, i requires 0 <= i < n => t[2 * i] + 0x10 * t[2 * i + 1])
  }

  /** `decompress_encode_array` undoes the packing: the result packs to the input and the
      lengths past it are zero. By `PackedOnce` there is one such table. */
  method DecompressEncodeArray(compressed: seq<byte>) returns (full: LengthTable)
    requires |compressed| <= 128
    ensures PackedNibbles(full, |compressed|) == compressed
    ensures forall i :: 0 <= i < |compressed| ==>
              full[2 * i] == compressed[i] % 16 && full[2 * i + 1] == compressed[i] / 16
    ensures forall k :: 2 * |compressed| <= k < 256 ==> full[k] == 0
  {
    full := seq(256, _ => 0);
    for i := 0 to |compressed|
      invariant forall k :: 0 <= k < i ==> full[2 * k] == compressed[k] % 16 && full[2 * k + 1] == compressed[k] / 16
      invariant forall k :: 2 * i <= k < 256 ==> full[k] == 0
    {
      var octet := compressed[i];
      full := full[2 * i := octet % 0x10];
      full := full[2 * i + 1 := octet / 0x10 % 0x10];
    }
  }

  lemma PackedOnce(a: LengthTable, b: LengthTable, n: nat)
    requires n <= 128 && PackedNibbles(a, n) == PackedNibbles(b, n)
    requires forall k :: 2 * n <= k < 256 ==> a[k] == b[k] == 0
    ensures a == b
  {
    forall k | 0 <= k < 2 * n
      ensures a[k] == b[k]
    {
      var i := k / 2;
      assert PackedNibbles(a, n)[i] == a[2 * i] + 0x10 * a[2 * i + 1];
      assert PackedNibbles(b, n)[i] == b[2 * i] + 0x10 * b[2 * i + 1];
    }
  }
}
