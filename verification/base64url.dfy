/** Base64 with the URL- and filename-safe alphabet of section 5 of RFC 4648
    (`-` and `_` in place of `+` and `/`): `base64.urlsafe_b64encode`, the
    unpadded form the bot emits, and the decoding that reads the padded form
    back. */
module Base64Url {
  import opened Wrappers
  import opened Bytes

  /** The character for a six-bit value. */
  function Char64(i: nat): (c: char)
    requires i < 64
  {
    if i < 26 then ('A' as int + i) as char
    else if i < 52 then ('a' as int + i - 26) as char
    else if i < 62 then ('0' as int + i - 52) as char
    else if i == 62 then '-'
    else '_'
  }

  /** The six-bit value of an alphabet character. */
  function Index64(c: char): (r: Option<nat>)
  {
    if 'A' <= c <= 'Z' then Some(c as int - 'A' as int)
    else if 'a' <= c <= 'z' then Some(c as int - 'a' as int + 26)
    else if '0' <= c <= '9' then Some(c as int - '0' as int + 52)
    else if c == '-' then Some(62)
    else if c == '_' then Some(63)
    else None
  }

  lemma Index64OfChar64(i: nat)
    requires i < 64
    ensures Index64(Char64(i)) == Some(i)
  {
  }

  /** Every character of the alphabet is `Char64` of its value. */
  lemma Char64OfIndex64(c: char)
    ensures Index64(c).Some? ==> Index64(c).value < 64 && Char64(Index64(c).value) == c
  {
  }

  predicate InAlphabet(c: char) { Index64(c).Some? }

  /** Three bytes as four characters, most significant bits first. */
  function EncodeGroup(a: Byte, b: Byte, c: Byte): (r: string)
    ensures |r| == 4
  {
    var n: int := a as int * 0x1_0000 + b as int * 0x100 + c as int;
    [Char64(n / 0x4_0000), Char64(n / 0x1000 % 64), Char64(n / 64 % 64), Char64(n % 64)]
  }

  lemma EncodeGroupAlphabet(a: Byte, b: Byte, c: Byte)
    ensures forall i :: 0 <= i < 4 ==> InAlphabet(EncodeGroup(a, b, c)[i])
  {
    var n: int := a as int * 0x1_0000 + b as int * 0x100 + c as int;
    Index64OfChar64(n / 0x4_0000);
    Index64OfChar64(n / 0x1000 % 64);
    Index64OfChar64(n / 64 % 64);
    Index64OfChar64(n % 64);
  }

  /** The alphabet characters for `data`, without padding: four for every
      three bytes, then three for two trailing bytes or two for one. */
  function Unpadded(data: seq<Byte>): (r: string)
    ensures |r| == (4 * |data| + 2) / 3
  {
    if |data| >= 3 then EncodeGroup(data[0], data[1], data[2]) + Unpadded(data[3..])
    else if |data| == 2 then EncodeGroup(data[0], data[1], 0)[..3]
    else if |data| == 1 then EncodeGroup(data[0], 0, 0)[..2]
    else ""
  }

  /** Every character `Unpadded` emits is in the alphabet. */
  lemma {:induction false} UnpaddedAlphabet(data: seq<Byte>)
    ensures forall i :: 0 <= i < |Unpadded(data)| ==> InAlphabet(Unpadded(data)[i])
  {
    if |data| >= 3 {
      UnpaddedAlphabet(data[3..]);
      UnpaddedCons(data);
      EncodeGroupAlphabet(data[0], data[1], data[2]);
    } else if |data| == 2 {
      EncodeGroupAlphabet(data[0], data[1], 0);
    } else if |data| == 1 {
      EncodeGroupAlphabet(data[0], 0, 0);
    }
  }

  function Pad(k: nat): (r: string)
    ensures |r| == k && forall i :: 0 <= i < k ==> r[i] == '='
  {
    seq(k, _ => '=')
  }

  /** `base64.urlsafe_b64encode(data)`: the padded encoding. */
  function UrlsafeB64Encode(data: seq<Byte>): (r: string)
    ensures |r| % 4 == 0
  {
    if |data| >= 3 then
      var g, rest := EncodeGroup(data[0], data[1], data[2]), UrlsafeB64Encode(data[3..]);
      LengthStep(|rest|);
      g + rest
    else if |data| == 2 then EncodeGroup(data[0], data[1], 0)[..3] + "="
    else if |data| == 1 then EncodeGroup(data[0], 0, 0)[..2] + "=="
    else ""
  }

  lemma ModStep(n: nat)
    ensures (4 + n) % 4 == n % 4
  {
  }

  lemma LengthStep(n: nat)
    requires n % 4 == 0
    ensures (4 + n) % 4 == 0
  {
  }

  /** `bytes.rstrip(b'=')` on the encoded text. */
  function RStripEq(s: string): (r: string)
    ensures |r| <= |s| && r == s[..|r|]
    ensures r != [] ==> r[|r| - 1] != '='
    ensures forall i :: |r| <= i < |s| ==> s[i] == '='
  {
    if s != [] && s[|s| - 1] == '=' then RStripEq(s[..|s| - 1]) else s
  }

  /** `base64url_encode(data)`: the padded encoding with its trailing `=`
      removed. */
  function Base64UrlEncode(data: seq<Byte>): (r: string)
  {
    RStripEq(UrlsafeB64Encode(data))
  }

  /** The padded encoding is the unpadded characters followed by the `=`
      that fill the last group of four. */
  lemma {:induction false} PaddedIsUnpaddedPlusPad(data: seq<Byte>)
    ensures UrlsafeB64Encode(data) == Unpadded(data) + Pad((4 - |Unpadded(data)| % 4) % 4)
  {
    if |data| >= 3 {
      PaddedIsUnpaddedPlusPad(data[3..]);
      EncodeCons(data);
      UnpaddedCons(data);
      var g := EncodeGroup(data[0], data[1], data[2]);
      var u := Unpadded(data[3..]);
      var p := Pad((4 - |u| % 4) % 4);
      ModStep(|u|);
      assert |g + u| == 4 + |u|;
      assert g + (u + p) == (g + u) + p;
    } else {
      PaddedShort(data);
    }
  }

  lemma EncodeCons(data: seq<Byte>)
    requires |data| >= 3
    ensures UrlsafeB64Encode(data) == EncodeGroup(data[0], data[1], data[2]) + UrlsafeB64Encode(data[3..])
  {
  }

  lemma UnpaddedCons(data: seq<Byte>)
    requires |data| >= 3
    ensures Unpadded(data) == EncodeGroup(data[0], data[1], data[2]) + Unpadded(data[3..])
  {
  }

  lemma PaddedShort(data: seq<Byte>)
    requires |data| < 3
    ensures UrlsafeB64Encode(data) == Unpadded(data) + Pad((4 - |Unpadded(data)| % 4) % 4)
  {
    if |data| == 2 {
      assert "=" == Pad(1);
    } else if |data| == 1 {
      assert "==" == Pad(2);
    } else {
      assert Pad(0) == "";
    }
  }

  lemma {:induction false} RStripEqPad(u: string, k: nat)
    requires forall i :: 0 <= i < |u| ==> u[i] != '='
    ensures RStripEq(u + Pad(k)) == u
    decreases k
  {
    if k == 0 {
      assert u + Pad(0) == u;
      if u != [] { assert u[|u| - 1] != '='; }
    } else {
      assert (u + Pad(k))[..|u| + k - 1] == u + Pad(k - 1);
      RStripEqPad(u, k - 1);
    }
  }

  /** The emitted text is exactly the unpadded characters. */
  lemma {:induction false} Base64UrlEncodeIsUnpadded(data: seq<Byte>)
    ensures Base64UrlEncode(data) == Unpadded(data)
  {
    var u := Unpadded(data);
    PaddedIsUnpaddedPlusPad(data);
    UnpaddedAlphabet(data);
    NoPadInAlphabet(u);
    RStripEqPad(u, (4 - |u| % 4) % 4);
  }

  /** What `base64url_encode` emits: only alphabet characters, never `=`,
      and `ceil(4n/3)` of them for `n` bytes. */
  lemma Base64UrlEncodeShape(data: seq<Byte>)
    ensures |Base64UrlEncode(data)| == (4 * |data| + 2) / 3
    ensures forall i :: 0 <= i < |Base64UrlEncode(data)| ==> InAlphabet(Base64UrlEncode(data)[i])
    ensures '=' !in Base64UrlEncode(data)
  {
    Base64UrlEncodeIsUnpadded(data);
    UnpaddedAlphabet(data);
    NoPadInAlphabet(Unpadded(data));
  }

  lemma NoPadInAlphabet(u: string)
    requires forall i :: 0 <= i < |u| ==> InAlphabet(u[i])
    ensures forall i :: 0 <= i < |u| ==> u[i] != '='
    ensures '=' !in u
  {
    assert !InAlphabet('=');
  }

  // ------------------------------------------------------------- decoding

  /** Four alphabet characters as three bytes. */
  function DecodeGroup(s: string): (r: Option<seq<Byte>>)
    requires |s| == 4
    ensures r.Some? ==> |r.value| == 3
  {
    match (Index64(s[0]), Index64(s[1]), Index64(s[2]), Index64(s[3]))
    case (Some(i0), Some(i1), Some(i2), Some(i3)) =>
      var m := i0 * 0x4_0000 + i1 * 0x1000 + i2 * 64 + i3;
      Some([m / 0x1_0000, m / 0x100 % 256, m % 256])
    case _ => None
  }

  /** A last group `xyz=`: two bytes. */
  function DecodeTwo(s: string): (r: Option<seq<Byte>>)
    requires |s| == 3
  {
    match (Index64(s[0]), Index64(s[1]), Index64(s[2]))
    case (Some(i0), Some(i1), Some(i2)) =>
      var m := i0 * 0x1000 + i1 * 64 + i2;
      Some([m / 0x400, m / 4 % 256])
    case _ => None
  }

  /** A last group `xy==`: one byte. */
  function DecodeOne(s: string): (r: Option<seq<Byte>>)
    requires |s| == 2
  {
    match (Index64(s[0]), Index64(s[1]))
    case (Some(i0), Some(i1)) => Some([(i0 * 64 + i1) / 16])
    case _ => None
  }

  /** Decoding of padded URL-safe base64: groups of four characters, only
      the last of which may end in `=` or `==`. None for anything else. */
  function UrlsafeB64Decode(s: string): (r: Option<seq<Byte>>)
    decreases |s|
  {
    if s == [] then Some([])
    else if |s| < 4 then None
    else if |s| == 4 && s[2] == '=' && s[3] == '=' then DecodeOne(s[..2])
    else if |s| == 4 && s[3] == '=' then DecodeTwo(s[..3])
    else
      match (DecodeGroup(s[..4]), UrlsafeB64Decode(s[4..]))
      case (Some(g), Some(rest)) => Some(g + rest)
      case _ => None
  }

  lemma GroupRoundTrip(a: Byte, b: Byte, c: Byte)
    ensures DecodeGroup(EncodeGroup(a, b, c)) == Some([a, b, c])
  {
    var n: int := a as int * 0x1_0000 + b as int * 0x100 + c as int;
    var g := EncodeGroup(a, b, c);
    Index64OfChar64(n / 0x4_0000);
    Index64OfChar64(n / 0x1000 % 64);
    Index64OfChar64(n / 64 % 64);
    Index64OfChar64(n % 64);
    SixBitDigits(n);
    ByteDigits(a, b, c);
  }

  lemma SixBitDigits(n: nat)
    requires n < 0x100_0000
    ensures n == n / 0x4_0000 * 0x4_0000 + n / 0x1000 % 64 * 0x1000 + n / 64 % 64 * 64 + n % 64
  {
    assert n == (n / 64) * 64 + n % 64;
    assert n / 64 == (n / 0x1000) * 64 + n / 64 % 64;
    assert n / 0x1000 == (n / 0x4_0000) * 64 + n / 0x1000 % 64;
  }

  lemma ByteDigits(a: Byte, b: Byte, c: Byte)
    ensures var n: int := a as int * 0x1_0000 + b as int * 0x100 + c as int;
      n / 0x1_0000 == a && n / 0x100 % 256 == b && n % 256 == c
  {
    var n: int := a as int * 0x1_0000 + b as int * 0x100 + c as int;
    assert n / 0x100 == a * 0x100 + b;
  }

  /** The characters of a group, as six-bit values. */
  lemma EncodeGroupChars(a: Byte, b: Byte, c: Byte, n: int)
    requires n == a as int * 0x1_0000 + b as int * 0x100 + c as int
    ensures 0 <= n < 0x100_0000
    ensures EncodeGroup(a, b, c) == [Char64(n / 0x4_0000), Char64(n / 0x1000 % 64), Char64(n / 64 % 64), Char64(n % 64)]
  {
  }

  lemma TwoDigits(a: Byte, b: Byte, n: int)
    requires n == a as int * 0x1_0000 + b as int * 0x100
    ensures 0 <= n < 0x100_0000
    ensures var m := n / 0x4_0000 * 0x1000 + n / 0x1000 % 64 * 64 + n / 64 % 64;
      m / 0x400 == a as int && m / 4 % 256 == b as int
  {
    TwoSixBitDigits(a, b, n);
    var m := (a as int / 4) * 0x1000 + ((a as int % 4) * 16 + b as int / 16) * 64 + (b as int % 16) * 4;
    assert a as int == (a as int / 4) * 4 + a as int % 4;
    assert b as int == (b as int / 16) * 16 + b as int % 16;
    assert m == a as int * 0x400 + b as int * 4;
    assert m / 4 == a as int * 256 + b as int;
  }

  /** The three leading six-bit digits of `a * 0x1_0000 + b * 0x100`. */
  lemma TwoSixBitDigits(a: Byte, b: Byte, n: int)
    requires n == a as int * 0x1_0000 + b as int * 0x100
    ensures 0 <= n < 0x100_0000
    ensures n / 0x4_0000 == a as int / 4
    ensures n / 0x1000 % 64 == (a as int % 4) * 16 + b as int / 16
    ensures n / 64 % 64 == (b as int % 16) * 4
  {
    var d2, d1, d0 := a as int / 4, (a as int % 4) * 16 + b as int / 16, (b as int % 16) * 4;
    assert a as int == d2 * 4 + a as int % 4;
    assert b as int == (b as int / 16) * 16 + b as int % 16;
    assert n == d2 * 0x4_0000 + d1 * 0x1000 + d0 * 64;
    assert 0 <= d1 < 64 && 0 <= d0 < 64;
    assert n / 0x1000 == d2 * 64 + d1;
    assert n / 64 == d2 * 0x1000 + d1 * 64 + d0;
  }

  lemma TwoRoundTrip(a: Byte, b: Byte)
    ensures DecodeTwo(EncodeGroup(a, b, 0)[..3]) == Some([a, b])
  {
    var n: int := a as int * 0x1_0000 + b as int * 0x100;
    EncodeGroupChars(a, b, 0, n);
    TwoDigits(a, b, n);
    var i0, i1, i2 := n / 0x4_0000, n / 0x1000 % 64, n / 64 % 64;
    Index64OfChar64(i0);
    Index64OfChar64(i1);
    Index64OfChar64(i2);
  }

  lemma OneDigits(a: Byte, n: int)
    requires n == a as int * 0x1_0000
    ensures 0 <= n < 0x100_0000
    ensures (n / 0x4_0000 * 64 + n / 0x1000 % 64) / 16 == a as int
  {
    SixBitDigits(n);
    assert n / 0x1000 == a as int * 16;
  }

  lemma OneRoundTrip(a: Byte)
    ensures DecodeOne(EncodeGroup(a, 0, 0)[..2]) == Some([a])
  {
    var n: int := a as int * 0x1_0000;
    EncodeGroupChars(a, 0, 0, n);
    OneDigits(a, n);
    Index64OfChar64(n / 0x4_0000);
    Index64OfChar64(n / 0x1000 % 64);
  }

  lemma DecodeCons(g: string, rest: string, x: seq<Byte>, y: seq<Byte>)
    requires |g| == 4 && g[3] != '='
    requires DecodeGroup(g) == Some(x) && UrlsafeB64Decode(rest) == Some(y)
    ensures UrlsafeB64Decode(g + rest) == Some(x + y)
  {
    assert (g + rest)[..4] == g;
    assert (g + rest)[4..] == rest;
  }

  lemma DecodeLastTwo(t: string, x: seq<Byte>)
    requires |t| == 3 && DecodeTwo(t) == Some(x)
    ensures UrlsafeB64Decode(t + "=") == Some(x)
  {
    assert Index64('=') == None;
    assert (t + "=")[..3] == t;
  }

  lemma DecodeLastOne(t: string, x: seq<Byte>)
    requires |t| == 2 && DecodeOne(t) == Some(x)
    ensures UrlsafeB64Decode(t + "==") == Some(x)
  {
    assert (t + "==")[..2] == t;
  }

  /** Decoding the padded encoding gives the data back. */
  lemma {:induction false} DecodeEncode(data: seq<Byte>)
    ensures UrlsafeB64Decode(UrlsafeB64Encode(data)) == Some(data)
  {
    if |data| >= 3 {
      DecodeEncode(data[3..]);
      EncodeCons(data);
      DecodeGroupCons(data[0], data[1], data[2], UrlsafeB64Encode(data[3..]), data[3..]);
      assert data == [data[0], data[1], data[2]] + data[3..];
    } else if |data| == 2 {
      TwoRoundTrip(data[0], data[1]);
      DecodeLastTwo(EncodeGroup(data[0], data[1], 0)[..3], [data[0], data[1]]);
      assert data == [data[0], data[1]];
    } else if |data| == 1 {
      OneRoundTrip(data[0]);
      DecodeLastOne(EncodeGroup(data[0], 0, 0)[..2], [data[0]]);
      assert data == [data[0]];
    }
  }

  /** A whole encoded group in front of decodable text decodes to its
      three bytes in front. */
  lemma DecodeGroupCons(a: Byte, b: Byte, c: Byte, rest: string, y: seq<Byte>)
    requires UrlsafeB64Decode(rest) == Some(y)
    ensures UrlsafeB64Decode(EncodeGroup(a, b, c) + rest) == Some([a, b, c] + y)
  {
    GroupNoPad(a, b, c);
    GroupRoundTrip(a, b, c);
    DecodeCons(EncodeGroup(a, b, c), rest, [a, b, c], y);
  }

  lemma GroupNoPad(a: Byte, b: Byte, c: Byte)
    ensures EncodeGroup(a, b, c)[3] != '='
  {
    EncodeGroupAlphabet(a, b, c);
    assert InAlphabet(EncodeGroup(a, b, c)[3]);
    assert Index64('=') == None;
  }

  /** Restores the `=` that `base64url_encode` strips: up to a multiple of
      four characters. */
  function Repad(e: string): (r: string)
    ensures |e| <= |r| < |e| + 4 && |r| % 4 == 0 && r[..|e|] == e
  {
    e + Pad((4 - |e| % 4) % 4)
  }

  /** Re-padding what `base64url_encode` emits and decoding it returns the
      input bytes. */
  lemma {:induction false} RepadDecode(data: seq<Byte>)
    ensures UrlsafeB64Decode(Repad(Base64UrlEncode(data))) == Some(data)
  {
    assert Repad(Base64UrlEncode(data)) == UrlsafeB64Encode(data) by {
      Base64UrlEncodeIsUnpadded(data);
      PaddedIsUnpaddedPlusPad(data);
    }
    DecodeEncode(data);
  }
}
