/** UTF-8 as `str.encode('utf-8')` writes it (section 3 of RFC 3629): one
    to four bytes per Unicode scalar value, and the strict decoding that
    reads them back. */
module Utf8 {
  import opened Wrappers
  import opened Bytes

  predicate IsContinuation(b: Byte) { 0x80 <= b < 0xC0 }

  /** The bytes of one character, shortest form. */
  function EncodeChar(c: char): (r: seq<Byte>)
    ensures 1 <= |r| <= 4
    ensures |r| == 1 <==> (c as int) < 0x80
    ensures forall i :: 1 <= i < |r| ==> IsContinuation(r[i])
  {
    var n: int := c as int;
    if n < 0x80 then [n]
    else if n < 0x800 then [0xC0 + n / 64, 0x80 + n % 64]
    else if n < 0x1_0000 then [0xE0 + n / 0x1000, 0x80 + n / 64 % 64, 0x80 + n % 64]
    else [0xF0 + n / 0x4_0000, 0x80 + n / 0x1000 % 64, 0x80 + n / 64 % 64, 0x80 + n % 64]
  }

  /** `s.encode('utf-8')`. */
  function Encode(s: string): (r: seq<Byte>)
    ensures |s| <= |r| <= 4 * |s|
  {
    if s == [] then [] else EncodeChar(s[0]) + Encode(s[1..])
  }

  /** The first character of `b` and the number of bytes it takes; None for
      a stray continuation byte, a truncated sequence, an overlong form, a
      surrogate or a value above U+10FFFF. */
  function DecodeFirst(b: seq<Byte>): (r: Option<(char, nat)>)
    ensures r.Some? ==> 1 <= r.value.1 <= |b| && r.value.1 <= 4
  {
    if b == [] then None
    else if b[0] < 0x80 then Some((b[0] as char, 1))
    else if 0xC2 <= b[0] < 0xE0 && |b| >= 2 && IsContinuation(b[1]) then
      var n: int := (b[0] as int - 0xC0) * 64 + (b[1] as int - 0x80);
      Some((n as char, 2))
    else if 0xE0 <= b[0] < 0xF0 && |b| >= 3 && IsContinuation(b[1]) && IsContinuation(b[2]) then
      var n: int := (b[0] as int - 0xE0) * 0x1000 + (b[1] as int - 0x80) * 64 + (b[2] as int - 0x80);
      if n < 0x800 || 0xD800 <= n < 0xE000 then None else Some((n as char, 3))
    else if 0xF0 <= b[0] < 0xF5 && |b| >= 4 && IsContinuation(b[1]) && IsContinuation(b[2]) && IsContinuation(b[3]) then
      var n: int := (b[0] as int - 0xF0) * 0x4_0000 + (b[1] as int - 0x80) * 0x1000
        + (b[2] as int - 0x80) * 64 + (b[3] as int - 0x80);
      if n < 0x1_0000 || n >= 0x11_0000 then None else Some((n as char, 4))
    else None
  }

  /** `b.decode('utf-8')`: None when it raises. */
  function Decode(b: seq<Byte>): (r: Option<string>)
    decreases |b|
  {
    if b == [] then Some("")
    else match DecodeFirst(b)
      case None => None
      case Some((c, k)) =>
        match Decode(b[k..])
        case None => None
        case Some(rest) => Some([c] + rest)
  }

  lemma TwoByteDigits(n: int)
    requires 0x80 <= n < 0x800
    ensures 0xC2 <= 0xC0 + n / 64 < 0xE0
    ensures (0xC0 + n / 64 - 0xC0) * 64 + (0x80 + n % 64 - 0x80) == n
  {
  }

  lemma ThreeByteDigits(n: int)
    requires 0x800 <= n < 0x1_0000
    ensures (0xE0 + n / 0x1000 - 0xE0) * 0x1000 + (0x80 + n / 64 % 64 - 0x80) * 64 + (0x80 + n % 64 - 0x80) == n
  {
    assert n == (n / 64) * 64 + n % 64;
    assert n / 64 == (n / 0x1000) * 64 + n / 64 % 64;
  }

  lemma FourByteDigits(n: int)
    requires 0x1_0000 <= n < 0x11_0000
    ensures 0xF0 <= 0xF0 + n / 0x4_0000 < 0xF5
    ensures (0xF0 + n / 0x4_0000 - 0xF0) * 0x4_0000 + (0x80 + n / 0x1000 % 64 - 0x80) * 0x1000
      + (0x80 + n / 64 % 64 - 0x80) * 64 + (0x80 + n % 64 - 0x80) == n
  {
    assert n == (n / 64) * 64 + n % 64;
    assert n / 64 == (n / 0x1000) * 64 + n / 64 % 64;
    assert n / 0x1000 == (n / 0x4_0000) * 64 + n / 0x1000 % 64;
  }

  /** The bytes of one character decode to that character, whatever
      follows them. */
  lemma DecodeFirstOfEncodeChar(c: char, rest: seq<Byte>)
    ensures DecodeFirst(EncodeChar(c) + rest) == Some((c, |EncodeChar(c)|))
  {
    var n: int := c as int;
    var e := EncodeChar(c);
    if n < 0x80 {
    } else if n < 0x800 {
      TwoByteDigits(n);
      assert (e + rest)[..2] == e;
    } else if n < 0x1_0000 {
      ThreeByteDigits(n);
      assert (e + rest)[..3] == e;
    } else {
      FourByteDigits(n);
      assert (e + rest)[..4] == e;
    }
  }

  /** Decoding the UTF-8 bytes of a string gives the string back. */
  lemma {:induction false} DecodeEncode(s: string)
    ensures Decode(Encode(s)) == Some(s)
  {
    if s != [] {
      var e := EncodeChar(s[0]);
      DecodeFirstOfEncodeChar(s[0], Encode(s[1..]));
      assert (e + Encode(s[1..]))[|e|..] == Encode(s[1..]);
      DecodeEncode(s[1..]);
      assert s == [s[0]] + s[1..];
    }
  }
}
