/** A file as a byte sequence with a cursor. */
module Files {
  import opened Machine

  /** `n` bytes from a position on; what lies past the end of the file leaves the zeros of the
      freshly made destination. */
  function BytesAt(data: seq<byte>, pos: nat, n: nat): (r: seq<byte>)
    ensures |r| == n
    ensures pos + n <= |data| ==> r == data[pos..pos + n]
    ensures forall i :: 0 <= i < n && pos + i >= |data| ==> r[i] == 0
  {
    seq(n, i requires 0 <= i < n => if pos + i < |data| then data[pos + i] else 0)
  }

  function U16At(data: seq<byte>, pos: nat): (r: uint16) {
    LeWidth(BytesAt(data, pos, 2));
    LeValue(BytesAt(data, pos, 2))
  }

  function U32At(data: seq<byte>, pos: nat): (r: uint32) {
    LeWidth(BytesAt(data, pos, 4));
    LeValue(BytesAt(data, pos, 4))
  }

  function U64At(data: seq<byte>, pos: nat): (r: uint64) {
    LeWidth(BytesAt(data, pos, 8));
    LeValue(BytesAt(data, pos, 8))
  }

  /** `s` stands in `data` at `position`. */
  predicate StandsAt(data: seq<byte>, position: nat, s: seq<byte>) {
    position + |s| <= |data| && data[position..position + |s|] == s
  }

  lemma StandsParts(data: seq<byte>, position: nat, a: seq<byte>, b: seq<byte>)
    requires StandsAt(data, position, a + b)
    ensures StandsAt(data, position, a) && StandsAt(data, position + |a|, b)
  {
    assert data[position..position + |a|] == (a + b)[..|a|];
    assert data[position + |a|..position + |a| + |b|] == (a + b)[|a|..];
  }

  lemma U16Stands(data: seq<byte>, position: nat, x: uint16)
    requires StandsAt(data, position, LeBytes(x, 2))
    ensures U16At(data, position) == x
  {
    Le16(x);
  }

  lemma U32Stands(data: seq<byte>, position: nat, x: uint32)
    requires StandsAt(data, position, LeBytes(x, 4))
    ensures U32At(data, position) == x
  {
    Le32(x);
  }

  lemma U64Stands(data: seq<byte>, position: nat, x: uint64)
    requires StandsAt(data, position, LeBytes(x, 8))
    ensures U64At(data, position) == x
  {
    Le64(x);
  }

  class FileHandle {
    const data: seq<byte>
    var pos: nat

    constructor (d: seq<byte>)
      ensures data == d && pos == 0
    {
      data, pos := d, 0;
    }

    method Seek(p: nat)
      modifies this`pos
      ensures pos == p
    {
      pos := p;
    }

    /** A read moves the cursor over the bytes there were. */
    method Read(n: nat) returns (r: seq<byte>)
      modifies this`pos
      ensures r == BytesAt(data, old(pos), n)
      ensures pos == if old(pos) + n <= |data| then old(pos) + n else if old(pos) <= |data| then |data| else old(pos)
    {
      r := BytesAt(data, pos, n);
      if pos + n <= |data| {
        pos := pos + n;
      } else if pos <= |data| {
        pos := |data|;
      }
    }
  }
}
