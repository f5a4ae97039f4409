/** The Latin-1 to UTF-8 step of the string decoder, against section 3 of RFC 3629. */
module Latin1 {
  import opened Machine

  /** The octets of a code point below U+0800: 0xxxxxxx, or 110xxxxx 10xxxxxx. */
  function Utf8Char(point: nat): (r: seq<byte>)
    requires point < 0x800
  {
    if point < 0x80 then [point] else [0xC0 + point / 0x40, 0x80 + point % 0x40]
  }

  /** A Latin-1 string as UTF-8: its bytes are its code points. */
  function Utf8(s: seq<byte>): seq<byte> {
    if s == [] then [] else Utf8(s[..|s| - 1]) + Utf8Char(s[|s| - 1])
  }

  function Point(first: byte, second: byte): nat
    requires 0xC0 <= first && 0x80 <= second
  {
    (first - 0xC0) * 0x40 + (second - 0x80)
  }

  function One(point: nat): seq<nat> {
    [point]
  }

  /** Reads one- and two-octet UTF-8; nothing else, no stray and no overlong octets. */
  function ReadUtf8(u: seq<byte>): Option<seq<nat>> {
    if u == [] then Some([])
    else if u[0] < 0x80 then
      match ReadUtf8(u[1..])
      case Some(rest) => Some(One(u[0]) + rest)
      case None => None
    else if |u| > 1 && 0xC2 <= u[0] < 0xE0 && 0x80 <= u[1] < 0xC0 then
      match ReadUtf8(u[2..])
      case Some(rest) => Some(One(Point(u[0], u[1])) + rest)
      case None => None
    else None
  }

  lemma {:induction false} ReadUtf8Append(a: seq<byte>, b: seq<byte>)
    requires ReadUtf8(a).Some? && ReadUtf8(b).Some?
    ensures ReadUtf8(a + b) == Some(ReadUtf8(a).value + ReadUtf8(b).value)
    decreases |a|
  {
    if a == [] {
      assert a + b == b;
      assert ReadUtf8(a).value + ReadUtf8(b).value == ReadUtf8(b).value;
    } else {
      var n := if a[0] < 0x80 then 1 else 2;
      ReadUtf8Append(a[n..], b);
      assert (a + b)[n..] == a[n..] + b;
      assert (a + b)[0] == a[0] && (n == 2 ==> (a + b)[1] == a[1]);
      var head := One(if n == 1 then a[0] else Point(a[0], a[1]));
      assert head + ReadUtf8(a[n..]).value + ReadUtf8(b).value == head + (ReadUtf8(a[n..]).value + ReadUtf8(b).value);
    }
  }

  lemma ReadUtf8Char(c: byte)
    ensures ReadUtf8(Utf8Char(c)) == Some([c])
  {
    var u := Utf8Char(c);
    assert u[|u|..] == [] && One(c) + [] == One(c);
    assert c >= 0x80 ==> Point(u[0], u[1]) == c;
    assert ReadUtf8(u) == Some(One(c));
  }

  /** Reading the UTF-8 back gives the Latin-1 symbols. */
  lemma {:induction false} Utf8RoundTrip(s: seq<byte>)
    ensures ReadUtf8(Utf8(s)) == Some(s)
  {
    if s == [] {
    } else {
      var c := s[|s| - 1];
      Utf8RoundTrip(s[..|s| - 1]);
      ReadUtf8Char(c);
      ReadUtf8Append(Utf8(s[..|s| - 1]), Utf8Char(c));
      assert s == s[..|s| - 1] + [c];
    }
  }

  /** `iso88591_to_utf8` emits the octets RFC 3629 prescribes. */
  method Iso88591ToUtf8(code: byte) returns (utf8: seq<byte>)
    ensures utf8 == Utf8Char(code)
  {
    utf8 := [];
    if code >= 0x80 {
      utf8 := utf8 + [0xC2 + if code > 0xBF then 1 else 0];
      utf8 := utf8 + [code % 0x40 + 0x80];
    } else {
      utf8 := utf8 + [code];
    }
  }
}
