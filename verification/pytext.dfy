/** The Python `str` operations that the bot's text handling relies on, with
    Python's semantics: whitespace is what `str.isspace` accepts, `split` with a
    separator cuts at the leftmost non-overlapping occurrences, `split()` without
    one cuts at runs of whitespace, `replace` replaces every non-overlapping
    occurrence, and `int()` reads an optional sign followed by decimal digits. */
module PyText {
  import opened Wrappers

  /** `str.isspace` for one character. */
  predicate IsSpace(c: char) {
    var n := c as int;
    n == 0x20 || (0x09 <= n <= 0x0D) || (0x1C <= n <= 0x1F) || n == 0x85 || n == 0xA0
    || n == 0x1680 || (0x2000 <= n <= 0x200A) || n == 0x2028 || n == 0x2029
    || n == 0x202F || n == 0x205F || n == 0x3000
  }

  predicate IsDigit(c: char) { '0' <= c <= '9' }

  predicate AllDigits(s: string) { forall i :: 0 <= i < |s| ==> IsDigit(s[i]) }

  predicate StartsWith(s: string, p: string) { |p| <= |s| && s[..|p|] == p }

  predicate EndsWith(s: string, p: string) { |p| <= |s| && s[|s| - |p|..] == p }

  /** `str.lstrip()`: drops the leading whitespace, and only that. */
  function LStrip(s: string): (r: string)
    ensures |r| <= |s| && r == s[|s| - |r|..]
    ensures forall i :: 0 <= i < |s| - |r| ==> IsSpace(s[i])
    ensures r != [] ==> !IsSpace(r[0])
    decreases |s|
  {
    if s != [] && IsSpace(s[0]) then LStrip(s[1..]) else s
  }

  /** `str.rstrip()`: drops the trailing whitespace, and only that. */
  function RStrip(s: string): (r: string)
    ensures |r| <= |s| && r == s[..|r|]
    ensures forall i :: |r| <= i < |s| ==> IsSpace(s[i])
    ensures r != [] ==> !IsSpace(r[|r| - 1])
    decreases |s|
  {
    if s != [] && IsSpace(s[|s| - 1]) then RStrip(s[..|s| - 1]) else s
  }

  /** `str.strip()`. */
  function Strip(s: string): (r: string)
    ensures |r| <= |s|
    ensures r != [] ==> !IsSpace(r[0]) && !IsSpace(r[|r| - 1])
    ensures r == [] <==> forall i :: 0 <= i < |s| ==> IsSpace(s[i])
  {
    var l := LStrip(s);
    var r := RStrip(l);
    assert r != [] ==> r[0] == l[0];
    assert r == [] ==> l == [];
    r
  }

  lemma StripUnchanged(s: string)
    requires s != [] && !IsSpace(s[0]) && !IsSpace(s[|s| - 1])
    ensures Strip(s) == s
  {
  }

  /** One leading blank goes away under `strip()`. */
  lemma StripSpaceThen(x: string)
    requires x != [] && !IsSpace(x[0]) && !IsSpace(x[|x| - 1])
    ensures Strip(" " + x) == x
  {
    assert (" " + x)[1..] == x;
    StripUnchanged(x);
  }

  /** `p` occurs in `s` starting at index `i`. */
  predicate OccursAt(s: string, p: string, i: int) {
    0 <= i && i + |p| <= |s| && s[i..i + |p|] == p
  }

  /** The first occurrence of `p` in `s` at or after `k`, or -1. */
  function IndexFrom(s: string, p: string, k: nat): (r: int)
    requires k <= |s|
    ensures r == -1 || (k <= r && OccursAt(s, p, r))
    ensures r >= 0 ==> forall i :: k <= i < r ==> !OccursAt(s, p, i)
    ensures r == -1 ==> forall i :: k <= i ==> !OccursAt(s, p, i)
    decreases |s| - k
  {
    if k + |p| > |s| then -1
    else if s[k..k + |p|] == p then k
    else (assert p != []; IndexFrom(s, p, k + 1))
  }

  /** `s.find(p)`. */
  function IndexOf(s: string, p: string): (r: int)
    ensures r == -1 || OccursAt(s, p, r)
    ensures r >= 0 ==> forall i :: 0 <= i < r ==> !OccursAt(s, p, i)
    ensures r == -1 <==> forall i :: !OccursAt(s, p, i)
  {
    IndexFrom(s, p, 0)
  }

  /** `p in s`. */
  predicate Contains(s: string, p: string) { IndexOf(s, p) >= 0 }

  /** `sep.join(parts)`. */
  function Join(parts: seq<string>, sep: string): string
  {
    if |parts| == 0 then ""
    else if |parts| == 1 then parts[0]
    else parts[0] + sep + Join(parts[1..], sep)
  }

  /** What `s.split(sep, n)` promises of its parts `r`: at least one part,
      joining them gives `s` back, at most `n + 1` parts when `n` is not
      negative, no part but the last holds `sep`, and the last holds none
      either unless the limit stopped the splitting. */
  predicate SplitFacts(r: seq<string>, s: string, sep: string, n: int) {
    && |r| >= 1
    && Join(r, sep) == s
    && (n >= 0 ==> |r| <= n + 1)
    && (forall i :: 0 <= i < |r| - 1 ==> !Contains(r[i], sep))
    && ((n < 0 || |r| <= n) ==> !Contains(r[|r| - 1], sep))
  }

  /** `s.split(sep, n)`; a negative `n` means no limit, as in Python. */
  function SplitN(s: string, sep: string, n: int): (r: seq<string>)
    requires sep != []
    ensures SplitFacts(r, s, sep, n)
    decreases |s|
  {
    var i := IndexOf(s, sep);
    if n == 0 || i < 0 then
      assert Join([s], sep) == s;
      [s]
    else
      var n' := if n > 0 then n - 1 else n;
      var rest := SplitN(s[i + |sep|..], sep, n');
      FirstOccurrenceCut(s, sep, i);
      SplitFactsCons(s[..i], s[i + |sep|..], sep, n, rest);
      [s[..i]] + rest
  }

  /** Cutting at the first occurrence of `sep`: the part before holds no
      `sep`, and the text is that part, `sep` and the rest. */
  lemma FirstOccurrenceCut(s: string, sep: string, i: int)
    requires sep != [] && i >= 0 && i == IndexOf(s, sep)
    ensures i + |sep| <= |s|
    ensures !Contains(s[..i], sep)
    ensures s == s[..i] + sep + s[i + |sep|..]
  {
    var head := s[..i];
    forall j | 0 <= j && j + |sep| <= |head| ensures !OccursAt(head, sep, j) {
      assert head[j..j + |sep|] == s[j..j + |sep|];
      assert j < i && !OccursAt(s, sep, j);
    }
    assert s[i..i + |sep|] == sep;
    assert s == s[..i] + s[i..i + |sep|] + s[i + |sep|..];
  }

  /** One more part in front of a split. */
  lemma SplitFactsCons(head: string, tail: string, sep: string, n: int, rest: seq<string>)
    requires sep != [] && n != 0 && !Contains(head, sep)
    requires SplitFacts(rest, tail, sep, if n > 0 then n - 1 else n)
    ensures SplitFacts([head] + rest, head + sep + tail, sep, n)
  {
    var r := [head] + rest;
    assert r[1..] == rest;
    forall i | 0 <= i < |r| - 1 ensures !Contains(r[i], sep) {
      if i > 0 { assert r[i] == rest[i - 1]; }
    }
    assert r[|r| - 1] == rest[|rest| - 1];
  }

  /** `s.split(sep)`. */
  function SplitOn(s: string, sep: string): (r: seq<string>)
    requires sep != []
    ensures |r| >= 1 && Join(r, sep) == s
    ensures forall i :: 0 <= i < |r| ==> !Contains(r[i], sep)
  {
    SplitN(s, sep, -1)
  }

  /** `s.split(sep, 1)` when it yields two parts: the text before and after the
      first occurrence of `sep`. */
  function SplitFirst(s: string, sep: string): (r: Option<(string, string)>)
    requires sep != []
    ensures r.None? <==> !Contains(s, sep)
    ensures r.Some? ==> s == r.value.0 + sep + r.value.1 && !Contains(r.value.0, sep)
  {
    var parts := SplitN(s, sep, 1);
    if |parts| == 2 then Some((parts[0], parts[1])) else None
  }

  /** Splitting at the first separator of a string whose leading part has none. */
  lemma SplitOnCons(x: string, c: char, rest: string)
    requires c !in x
    ensures SplitOn(x + [c] + rest, [c]) == [x] + SplitOn(rest, [c])
  {
    var s := x + [c] + rest;
    assert OccursAt(s, [c], |x|) by { assert s[|x|..|x| + 1] == [c]; }
    forall i | 0 <= i < |x| ensures !OccursAt(s, [c], i) {
      assert s[i..i + 1] == [x[i]];
    }
    assert IndexOf(s, [c]) == |x|;
    assert s[..|x|] == x && s[|x| + 1..] == rest;
  }

  /** `s.split(c, n)` with a budget left cuts at the first `c`. */
  lemma SplitNCons(x: string, c: char, rest: string, n: int)
    requires c !in x && n != 0
    ensures SplitN(x + [c] + rest, [c], n) == [x] + SplitN(rest, [c], if n > 0 then n - 1 else n)
  {
    var s := x + [c] + rest;
    assert OccursAt(s, [c], |x|) by { assert s[|x|..|x| + 1] == [c]; }
    forall i | 0 <= i < |x| ensures !OccursAt(s, [c], i) {
      assert s[i..i + 1] == [x[i]];
    }
    assert IndexOf(s, [c]) == |x|;
    assert s[..|x|] == x && s[|x| + 1..] == rest;
  }

  /** `str(i)` holds only digits and a leading minus sign. */
  lemma IntToStringChars(i: int, c: char)
    requires c != '-' && !IsDigit(c)
    ensures c !in IntToString(i)
  {
    var s := IntToString(i);
    if i < 0 {
      assert s == "-" + NatToString(-i);
      assert forall k :: 1 <= k < |s| ==> s[k] == NatToString(-i)[k - 1];
    }
  }

  lemma SplitOnNone(x: string, c: char)
    requires c !in x
    ensures SplitOn(x, [c]) == [x]
  {
    forall i | 0 <= i < |x| ensures !OccursAt(x, [c], i) {
      assert x[i..i + 1] == [x[i]];
    }
  }

  /** `s.split(c, 1)` on text whose first `c` follows `x`. */
  lemma SplitFirstCons(x: string, c: char, rest: string)
    requires c !in x
    ensures SplitFirst(x + [c] + rest, [c]) == Some((x, rest))
  {
    var s := x + [c] + rest;
    assert OccursAt(s, [c], |x|) by { assert s[|x|..|x| + 1] == [c]; }
    var r := SplitFirst(s, [c]);
    var (a, b) := r.value;
    forall j | 0 <= j < |a| ensures a[j] != c {
      assert a[j..j + 1] == [a[j]];
    }
    assert s[|a|] == c && s[|x|] == c;
    assert forall j :: 0 <= j < |x| ==> s[j] == x[j];
    assert forall j :: 0 <= j < |a| ==> s[j] == a[j];
    assert a == s[..|x|] == x;
    assert b == s[|x| + 1..] == rest;
  }

  /** A line that begins with a word keeps beginning with it once stripped. */
  lemma StartsWithStrip(line: string, p: string)
    requires StartsWith(line, p) && p != [] && !IsSpace(p[0]) && !IsSpace(p[|p| - 1])
    ensures StartsWith(Strip(line), p)
  {
    assert LStrip(line) == line;
    var r := RStrip(line);
    assert line[|p| - 1] == p[|p| - 1];
    assert r[..|p|] == line[..|p|];
  }

  /** Splitting a join on a one-character separator that no part contains
      gives the parts back. */
  lemma {:induction false} SplitOnJoin(parts: seq<string>, c: char)
    requires |parts| >= 1
    requires forall i :: 0 <= i < |parts| ==> c !in parts[i]
    ensures SplitOn(Join(parts, [c]), [c]) == parts
  {
    if |parts| == 1 {
      SplitOnNone(parts[0], c);
    } else {
      SplitOnJoin(parts[1..], c);
      SplitOnCons(parts[0], c, Join(parts[1..], [c]));
      assert parts == [parts[0]] + parts[1..];
    }
  }

  /** `s.replace(target, replacement)`, which Python computes as
      `replacement.join(s.split(target))`. */
  function Replace(s: string, target: string, replacement: string): (r: string)
    requires target != []
    ensures !Contains(s, target) ==> r == s
  {
    Join(SplitOn(s, target), replacement)
  }

  /** Length of the leading run of non-whitespace characters. */
  function TokenLength(s: string): (n: nat)
    ensures n <= |s|
    ensures forall i :: 0 <= i < n ==> !IsSpace(s[i])
    ensures n < |s| ==> IsSpace(s[n])
    ensures s != [] && !IsSpace(s[0]) ==> n >= 1
  {
    if s == [] || IsSpace(s[0]) then 0 else 1 + TokenLength(s[1..])
  }

  /** Non-empty runs without whitespace. */
  predicate Tokens(r: seq<string>) {
    forall i :: 0 <= i < |r| ==> r[i] != [] && forall j :: 0 <= j < |r[i]| ==> !IsSpace(r[i][j])
  }

  lemma TokensCons(tok: string, rest: seq<string>)
    requires tok != [] && (forall j :: 0 <= j < |tok| ==> !IsSpace(tok[j])) && Tokens(rest)
    ensures Tokens([tok] + rest)
  {
    var r := [tok] + rest;
    forall i | 0 <= i < |r| ensures r[i] != [] && forall j :: 0 <= j < |r[i]| ==> !IsSpace(r[i][j]) {
      if i > 0 { assert r[i] == rest[i - 1]; }
    }
  }

  /** `s.split()`: the maximal runs of non-whitespace characters, in order. */
  function SplitWhitespace(s: string): (r: seq<string>)
    ensures Tokens(r)
    decreases |s|
  {
    var t := LStrip(s);
    if t == [] then []
    else
      var n := TokenLength(t);
      var tok := t[..n];
      assert forall j :: 0 <= j < |tok| ==> tok[j] == t[j];
      TokensCons(tok, SplitWhitespace(t[n..]));
      [tok] + SplitWhitespace(t[n..])
  }

  function UpperChar(c: char): char {
    if 'a' <= c <= 'z' then (c as int - 32) as char else c
  }

  /** `str.upper()` on the ASCII letters. */
  function Upper(s: string): (r: string)
    ensures |r| == |s|
  {
    seq(|s|, i requires 0 <= i < |s| => UpperChar(s[i]))
  }

  function DigitChar(d: nat): (c: char)
    requires d < 10
    ensures IsDigit(c)
  {
    ('0' as int + d) as char
  }

  function DigitValue(c: char): (d: nat)
    requires IsDigit(c)
    ensures d < 10 && DigitChar(d) == c
  {
    c as int - '0' as int
  }

  /** `str(n)` for a natural number. */
  function NatToString(n: nat): (r: string)
    ensures r != [] && AllDigits(r)
    ensures |r| > 1 ==> r[0] != '0'
  {
    if n < 10 then [DigitChar(n)] else NatToString(n / 10) + [DigitChar(n % 10)]
  }

  /** `str(i)` for an integer. */
  function IntToString(i: int): (r: string)
    ensures r != [] && !IsSpace(r[0]) && !IsSpace(r[|r| - 1])
    ensures i >= 0 <==> AllDigits(r)
  {
    if i < 0 then "-" + NatToString(-i) else NatToString(i)
  }

  /** The value of a string of decimal digits. */
  function DigitsValue(s: string): nat
    requires AllDigits(s)
  {
    if s == [] then 0 else DigitsValue(s[..|s| - 1]) * 10 + DigitValue(s[|s| - 1])
  }

  lemma {:induction false} DigitsValueOfNatToString(n: nat)
    ensures DigitsValue(NatToString(n)) == n
  {
    if n >= 10 {
      var a := NatToString(n / 10);
      var r := a + [DigitChar(n % 10)];
      assert r[..|r| - 1] == a;
      DigitsValueOfNatToString(n / 10);
    }
  }

  /** An optional sign followed by one or more decimal digits, and nothing else. */
  function ParseSignedDigits(t: string): (r: Option<int>)
    ensures r.Some? ==> t != [] && (AllDigits(t) || (AllDigits(t[1..]) && (t[0] == '-' || t[0] == '+')))
  {
    if t != [] && (t[0] == '-' || t[0] == '+') then
      var d := t[1..];
      if d != [] && AllDigits(d) then Some(if t[0] == '-' then -(DigitsValue(d) as int) else DigitsValue(d))
      else None
    else if t != [] && AllDigits(t) then Some(DigitsValue(t))
    else None
  }

  /** Python's `int(s)` on a str: optional surrounding whitespace, an optional
      sign, then one or more decimal digits; anything else raises ValueError,
      modelled as None. */
  function ParseInt(s: string): Option<int>
  {
    ParseSignedDigits(Strip(s))
  }

  /** The digits `str(i)` prints read back as `i`. */
  lemma ParseSignedDigitsOfIntToString(i: int)
    ensures ParseSignedDigits(IntToString(i)) == Some(i)
  {
    var s := IntToString(i);
    if i < 0 {
      assert s[1..] == NatToString(-i);
      DigitsValueOfNatToString(-i);
    } else {
      DigitsValueOfNatToString(i);
    }
  }

  /** `int(str(i)) == i`. */
  lemma ParseIntOfIntToString(i: int)
    ensures ParseInt(IntToString(i)) == Some(i)
  {
    StripUnchanged(IntToString(i));
    ParseSignedDigitsOfIntToString(i);
  }

  /** A non-empty run without whitespace: one token of `split()`. */
  predicate Word(s: string) {
    s != [] && forall j :: 0 <= j < |s| ==> !IsSpace(s[j])
  }

  /** A whitespace-free pattern found in `a + " " + b` lies wholly in `a` or
      wholly in `b`. */
  lemma OccursInPart(a: string, b: string, p: string, i: int)
    requires Word(p) && OccursAt(a + " " + b, p, i)
    ensures OccursAt(a, p, i) || OccursAt(b, p, i - |a| - 1)
  {
    var s := a + " " + b;
    assert forall k :: i <= k < i + |p| ==> s[k] == s[i..i + |p|][k - i];
    assert s[|a|] == ' ';
    if i + |p| <= |a| {
      assert s[i..i + |p|] == a[i..i + |p|];
    } else if i > |a| {
      assert s[i..i + |p|] == b[i - |a| - 1..i - |a| - 1 + |p|];
    }
  }

  /** A blank-led pattern does not start at a character other than a blank. */
  lemma NotBlankLedAt(s: string, w: string, i: int)
    requires 0 <= i < |s| && s[i] != ' '
    ensures !OccursAt(s, " " + w, i)
  {
    if i + |w| + 1 <= |s| {
      assert s[i..i + |w| + 1][0] == s[i];
    }
  }

  /** A blank-led pattern found in `a + " " + b` at or before the blank,
      where `a` has no whitespace, starts at that blank. */
  lemma BlankLedAt(a: string, b: string, w: string, i: int)
    requires forall j :: 0 <= j < |a| ==> !IsSpace(a[j])
    requires w != [] && OccursAt(a + " " + b, " " + w, i) && i <= |a|
    ensures i == |a| && OccursAt(b, w, 0)
  {
    var s := a + " " + b;
    assert s[i] == s[i..i + |w| + 1][0] == ' ';
    assert forall j :: 0 <= j < |a| ==> s[j] == a[j];
    assert s[i + 1..i + 1 + |w|] == s[i..i + 1 + |w|][1..] == w;
    assert s[i + 1..i + 1 + |w|] == b[..|w|];
  }

  /** Past the blank, `x + " " + u` holds no blank-led pattern. */
  lemma NoBlankLedInWord(x: string, u: string, w: string, i: int)
    requires Word(u) && |x| < i
    ensures !OccursAt(x + " " + u, " " + w, i)
  {
    var s := x + " " + u;
    if i < |s| {
      assert s[i] == u[i - |x| - 1];
      NotBlankLedAt(s, w, i);
    }
  }

  /** `x + " " + u` holds no blank-led `" " + w` when `u` does not hold `w`. */
  lemma NoBlankLed(x: string, u: string, w: string)
    requires Word(x) && Word(u) && Word(w) && !Contains(u, w)
    ensures !Contains(x + " " + u, " " + w)
  {
    forall i | 0 <= i ensures !OccursAt(x + " " + u, " " + w, i) {
      if i > |x| {
        NoBlankLedInWord(x, u, w, i);
      } else if OccursAt(x + " " + u, " " + w, i) {
        BlankLedAt(x, u, w, i);
      }
    }
  }

  /** `x + " " + u + " " + v` holds no blank-led `" " + w` when neither `u`
      nor `v` holds `w`. */
  lemma NoBlankLedInThree(x: string, u: string, v: string, w: string)
    requires Word(x) && Word(u) && Word(v) && Word(w) && !Contains(u, w) && !Contains(v, w)
    ensures !Contains(x + " " + u + " " + v, " " + w)
  {
    var t := u + " " + v;
    assert x + " " + u + " " + v == x + " " + t;
    NoBlankLed(u, v, w);
    forall i | 0 <= i ensures !OccursAt(x + " " + t, " " + w, i) {
      NoBlankLedAt(x, t, u, v, w, i);
    }
  }

  lemma NoBlankLedAt(x: string, t: string, u: string, v: string, w: string, i: int)
    requires Word(x) && Word(u) && Word(v) && Word(w) && !Contains(u, w) && t == u + " " + v
    requires !Contains(t, " " + w) && 0 <= i
    ensures !OccursAt(x + " " + t, " " + w, i)
  {
    var s := x + " " + t;
    if i > |x| {
      assert !OccursAt(t, " " + w, i - |x| - 1);
      if i + |w| + 1 <= |s| {
        assert s[i..i + |w| + 1] == t[i - |x| - 1..i - |x| + |w|];
      }
    } else if OccursAt(s, " " + w, i) {
      BlankLedAt(x, t, w, i);
      OccursInPart(u, v, w, 0);
    }
  }

  /** Deleting a trailing `p` that occurs nowhere earlier leaves the text
      before it. */
  lemma ReplaceAtEnd(s: string, p: string)
    requires p != [] && forall i :: 0 <= i < |s| ==> !OccursAt(s + p, p, i)
    ensures Replace(s + p, p, "") == s
  {
    var t := s + p;
    assert OccursAt(t, p, |s|) by { assert t[|s|..|s| + |p|] == p; }
    var k := IndexOf(t, p);
    assert k == |s|;
    FirstOccurrenceCut(t, p, k);
    assert t[..k] == s && t[k + |p|..] == [];
    assert IndexOf([], p) == -1;
    assert SplitOn(t, p) == [s, []];
    assert Join([s, []], []) == s + [] + Join([[]], []);
  }

  /** No blank-led `" " + w` starts before the trailing one of
      `x + " " + u + " " + w` when `u` does not hold `w`. */
  lemma NoEarlierBlankLed(x: string, u: string, w: string, i: int)
    requires Word(x) && Word(u) && Word(w) && !Contains(u, w) && 0 <= i < |x| + 1 + |u|
    ensures !OccursAt(x + " " + u + " " + w, " " + w, i)
  {
    var t := u + " " + w;
    var r := x + " " + t;
    assert x + " " + u + " " + w == r;
    if i > |x| {
      assert r[i] == t[i - |x| - 1];
      if i + |w| + 1 <= |r| {
        assert r[i..i + |w| + 1] == t[i - |x| - 1..i - |x| + |w|];
      }
      if OccursAt(t, " " + w, i - |x| - 1) {
        BlankLedAt(u, w, w, i - |x| - 1);
      }
    } else if OccursAt(r, " " + w, i) {
      BlankLedAt(x, t, w, i);
      OccursInPart(u, w, w, 0);
    }
  }

  /** The trailing `" " + w` of `x + " " + u + " " + w` is its only
      occurrence when `u` does not hold `w`, so deleting it leaves `x + " " + u`. */
  lemma OccursAtEnd(a: string, w: string)
    ensures OccursAt(a + w, w, |a|) && Contains(a + w, w)
  {
    assert (a + w)[|a|..|a| + |w|] == w;
    assert OccursAt(a + w, w, |a|);
    assert IndexOf(a + w, w) != -1;
  }

  lemma ReplaceTrailingWord(x: string, u: string, w: string)
    requires Word(x) && Word(u) && Word(w) && !Contains(u, w)
    ensures Replace(x + " " + u + " " + w, " " + w, "") == x + " " + u
  {
    var s := x + " " + u;
    assert s + (" " + w) == x + " " + u + " " + w;
    forall i | 0 <= i < |s| ensures !OccursAt(s + (" " + w), " " + w, i) {
      NoEarlierBlankLed(x, u, w, i);
    }
    ReplaceAtEnd(s, " " + w);
  }

  lemma {:induction false} TokenLengthOfWord(x: string, rest: string)
    requires forall j :: 0 <= j < |x| ==> !IsSpace(x[j])
    requires rest == [] || IsSpace(rest[0])
    ensures TokenLength(x + rest) == |x|
  {
    if x != [] {
      assert (x + rest)[1..] == x[1..] + rest;
      TokenLengthOfWord(x[1..], rest);
    }
  }

  /** A word followed by nothing or by whitespace is the first token. */
  lemma SplitWordFirst(x: string, rest: string)
    requires Word(x) && (rest == [] || IsSpace(rest[0]))
    ensures SplitWhitespace(x + rest) == [x] + SplitWhitespace(rest)
  {
    var s := x + rest;
    assert LStrip(s) == s;
    TokenLengthOfWord(x, rest);
    assert s[..|x|] == x && s[|x|..] == rest;
  }

  /** `(" " + u).split() == [u]` for a word. */
  lemma SplitBlankWord(u: string)
    requires Word(u)
    ensures SplitWhitespace(" " + u) == [u]
  {
    var s := " " + u;
    assert s[1..] == u;
    assert LStrip(u) == u;
    assert LStrip(s) == u;
    TokenLengthOfWord(u, []);
    assert u + [] == u;
    assert u[..|u|] == u && u[|u|..] == [];
    assert SplitWhitespace([]) == [];
  }

  /** `(x + " " + u).split() == [x, u]` for two words. */
  lemma SplitTwoWords(x: string, u: string)
    requires Word(x) && Word(u)
    ensures SplitWhitespace(x + " " + u) == [x, u]
  {
    assert x + " " + u == x + (" " + u);
    SplitWordFirst(x, " " + u);
    SplitBlankWord(u);
  }

  /** Lexicographic order on strings (SQLite's BINARY collation on ASCII text). */
  predicate StrLess(a: string, b: string) {
    if a == [] then b != []
    else if b == [] then false
    else if a[0] != b[0] then a[0] < b[0]
    else StrLess(a[1..], b[1..])
  }
}
