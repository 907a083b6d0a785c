/** Reading the `transfer` field of `awg show` ("1.5 GiB received, 3 MiB
    sent") into a byte count, and writing the total into the store when it
    changed. The same code appears in the periodic limit check and in the
    client-detail handler. */
module Traffic {
  import opened Wrappers
  import opened PyText
  import opened Store
  import IpLiteral

  /** A decimal literal's value, `mantissa / 10^scale`, held exactly. */
  datatype Decimal = Decimal(mantissa: int, scale: nat)

  function Pow10(k: nat): (r: nat)
    ensures r >= 1
  {
    if k == 0 then 1 else 10 * Pow10(k - 1)
  }

  /** `float(token)` for the plain decimal forms: an optional sign, then
      digits with at most one `.`, and at least one digit. None stands for the
      ValueError. */
  function ParseDecimal(token: string): (r: Option<Decimal>)
    ensures r.Some? ==> token != []
  {
    DecimalOfParts(token != [] && token[0] == '-', SplitOn(Unsigned(token), "."))
  }

  /** The token without its sign, if it has one. */
  function Unsigned(token: string): (r: string)
    ensures |r| <= |token|
  {
    if token != [] && (token[0] == '-' || token[0] == '+') then token[1..] else token
  }

  /** The value of the `.`-separated pieces of an unsigned literal: a whole
      part and at most one fraction part, holding digits and at least one. */
  function DecimalOfParts(negative: bool, parts: seq<string>): (r: Option<Decimal>)
    requires |parts| >= 1
    ensures r.Some? ==> parts[0] != [] || (|parts| == 2 && parts[1] != [])
  {
    if |parts| > 2 then None
    else
      var whole := parts[0];
      var fraction := if |parts| == 2 then parts[1] else "";
      var digits := whole + fraction;
      if digits == [] || !AllDigits(digits) then None
      else
        var value: int := DigitsValue(digits);
        Some(Decimal(if negative then -value else value, |fraction|))
  }

  /** `r` is `num / den` truncated toward zero, as Python's `int()` does. */
  predicate Truncates(r: int, num: int, den: nat) {
    (num >= 0 ==> r >= 0 && r * den <= num < (r + 1) * den)
    && (num < 0 ==> r <= 0 && -r * den <= -num < (-r + 1) * den)
  }

  function TruncDiv(num: int, den: nat): (r: int)
    requires den >= 1
    ensures Truncates(r, num, den)
  {
    var a := if num < 0 then -num else num;
    var q := a / den;
    DivBounds(a, den);
    if num < 0 then
      assert -(-q) == q;
      -q
    else q
  }

  /** `int(value * multiplier)`, computed on the exact product. */
  function Scaled(d: Decimal, multiplier: nat): (r: int)
    ensures Truncates(r, d.mantissa * multiplier, Pow10(d.scale))
  {
    TruncDiv(d.mantissa * multiplier, Pow10(d.scale))
  }

  lemma DivBounds(a: nat, b: nat)
    requires b >= 1
    ensures (a / b) * b <= a < (a / b + 1) * b
  {
  }

  /** The unit table; any other unit counts as bytes. */
  const Units: map<string, nat> := map[
    "B" := 1, "KIB" := 1024, "MIB" := 1024 * 1024, "GIB" := 1024 * 1024 * 1024,
    "TIB" := 1024 * 1024 * 1024 * 1024, "KB" := 1000, "MB" := 1000 * 1000,
    "GB" := 1000 * 1000 * 1000, "TB" := 1000 * 1000 * 1000 * 1000]

  /** `multipliers.get(unit.upper(), 1)`. */
  function Multiplier(unit: string): (r: nat)
    ensures r >= 1
    ensures Upper(unit) in Units ==> r == Units[Upper(unit)]
    ensures Upper(unit) !in Units ==> r == 1
  {
    var u := Upper(unit);
    if u in Units then Units[u] else 1
  }

  /** The tail of `parse_traffic_size` once the text is split: anything but
      two tokens is 0; otherwise the number times its unit. */
  function TokensSize(parts: seq<string>): (r: Option<int>)
    ensures |parts| != 2 ==> r == Some(0)
    ensures |parts| == 2 ==> (r.None? <==> ParseDecimal(parts[0]).None?)
    ensures |parts| == 2 && ParseDecimal(parts[0]).Some? ==>
      r == Some(Scaled(ParseDecimal(parts[0]).value, Multiplier(parts[1])))
  {
    if |parts| != 2 then Some(0)
    else match ParseDecimal(parts[0])
      case None => None
      case Some(d) => Some(Scaled(d, Multiplier(parts[1])))
  }

  /** `parse_traffic_size(size_str)`; None when `float()` raises. */
  function ParseTrafficSize(sizeText: string): Option<int> {
    TokensSize(SplitWhitespace(DropSuffix(DropSuffix(Strip(sizeText), "received"), "sent")))
  }

  /** `if w in s: s = s.replace(" " + w, "")`. */
  function DropSuffix(s: string, w: string): string
    requires w != []
  {
    if Contains(s, w) then Replace(s, " " + w, "") else s
  }

  /** Dropping a blank-led word that is not there changes nothing. */
  lemma DropSuffixAbsent(s: string, w: string)
    requires w != [] && !Contains(s, " " + w)
    ensures DropSuffix(s, w) == s
  {
  }

  /** Dropping the word that ends `x + " " + u + " " + w` leaves `x + " " + u`
      when `u` does not hold it. */
  lemma DropSuffixAtEnd(x: string, u: string, w: string)
    requires Word(x) && Word(u) && Word(w) && !Contains(u, w)
    ensures DropSuffix(x + " " + u + " " + w, w) == x + " " + u
  {
    OccursAtEnd(x + " " + u + " ", w);
    ReplaceTrailingWord(x, u, w);
  }

  /** The two halves of `parse_traffic_size` for a number and a unit
      followed by the word `w1` or `w2`; `w2` does not hold `w1`. */
  lemma HalfWithSuffix(x: string, unit: string, w1: string, w2: string)
    requires Word(x) && Word(unit) && Word(w1) && Word(w2)
    requires !Contains(unit, w1) && !Contains(unit, w2) && !Contains(w2, w1)
    ensures DropSuffix(DropSuffix(x + " " + unit + " " + w1, w1), w2) == x + " " + unit
    ensures DropSuffix(DropSuffix(x + " " + unit + " " + w2, w1), w2) == x + " " + unit
  {
    DropSuffixAtEnd(x, unit, w1);
    NoBlankLed(x, unit, w2);
    DropSuffixAbsent(x + " " + unit, w2);
    NoBlankLedInThree(x, unit, w2, w1);
    DropSuffixAbsent(x + " " + unit + " " + w2, w1);
    DropSuffixAtEnd(x, unit, w2);
  }

  /** What `parse_traffic_size` does with one half of a `transfer` value as
      `awg show` prints it, a number, a blank, a unit and then ` received` or
      ` sent`: the suffix goes and the two tokens are read. */
  lemma ParseTrafficSizeOfHalf(x: string, unit: string)
    requires Word(x) && Word(unit) && !Contains(unit, "received") && !Contains(unit, "sent")
    ensures ParseTrafficSize(x + " " + unit + " received") == TokensSize([x, unit])
    ensures ParseTrafficSize(x + " " + unit + " sent") == TokensSize([x, unit])
  {
    var received, sent := "received", "sent";
    SuffixWords();
    SizeWithSuffix(x, unit, received, sent);
    BlankSuffixes();
    var r, t := x + " " + unit + " received", x + " " + unit + " sent";
    AppendBlankWord(x + " " + unit, received, " received");
    AppendBlankWord(x + " " + unit, sent, " sent");
    assert ParseTrafficSize(r) == TokensSize(SplitWhitespace(DropSuffix(DropSuffix(Strip(r), received), sent)));
    assert ParseTrafficSize(t) == TokensSize(SplitWhitespace(DropSuffix(DropSuffix(Strip(t), received), sent)));
  }

  lemma AppendBlankWord(a: string, w: string, blankW: string)
    requires blankW == " " + w
    ensures a + blankW == a + " " + w
  {
  }

  lemma BlankSuffixes()
    ensures " received" == " " + "received" && " sent" == " " + "sent"
  {
  }

  /** The two suffixes are words, and ` sent` does not hold `received`. */
  lemma SuffixWords()
    ensures Word("received") && Word("sent") && !Contains("sent", "received")
  {
    assert forall i :: !OccursAt("sent", "received", i);
  }

  /** `parse_traffic_size` with the suffix words as parameters. */
  lemma SizeWithSuffix(x: string, unit: string, w1: string, w2: string)
    requires Word(x) && Word(unit) && Word(w1) && Word(w2)
    requires !Contains(unit, w1) && !Contains(unit, w2) && !Contains(w2, w1)
    ensures TokensSize(SplitWhitespace(DropSuffix(DropSuffix(Strip(x + " " + unit + " " + w1), w1), w2)))
      == TokensSize([x, unit])
    ensures TokensSize(SplitWhitespace(DropSuffix(DropSuffix(Strip(x + " " + unit + " " + w2), w1), w2)))
      == TokensSize([x, unit])
  {
    HalfWithSuffix(x, unit, w1, w2);
    StripUnchanged(x + " " + unit + " " + w1);
    StripUnchanged(x + " " + unit + " " + w2);
    SplitTwoWords(x, unit);
  }

  /** `float()` of digits with one `.`, optionally signed: the digits of both
      sides over ten to the number of fraction digits. */
  lemma ParseDecimalOfFraction(sign: string, w: string, f: string)
    requires sign == "" || sign == "-" || sign == "+"
    requires AllDigits(w) && AllDigits(f) && w + f != []
    ensures ParseDecimal(sign + w + "." + f)
      == Some(Decimal(if sign == "-" then -(DigitsValue(w + f) as int) else DigitsValue(w + f) as int, |f|))
  {
    var body := w + "." + f;
    BodyUnsigned(w, f);
    ParseDecimalUnsigned(sign, body);
    DotSplit(w, f);
    DecimalOfTwo(sign == "-", w, f);
    Regroup(sign, w, ".", f);
  }

  lemma Regroup(a: string, b: string, c: string, d: string)
    ensures a + b + c + d == a + (b + c + d)
  {
  }

  lemma BodyUnsigned(w: string, f: string)
    requires AllDigits(w)
    ensures w + "." + f != [] && (w + "." + f)[0] != '-' && (w + "." + f)[0] != '+'
  {
    assert (w + "." + f)[0] == if w != [] then w[0] else '.';
  }

  /** `float()` of plain digits, optionally signed. */
  lemma ParseDecimalOfWhole(sign: string, w: string)
    requires sign == "" || sign == "-" || sign == "+"
    requires AllDigits(w) && w != []
    ensures ParseDecimal(sign + w)
      == Some(Decimal(if sign == "-" then -(DigitsValue(w) as int) else DigitsValue(w) as int, 0))
  {
    assert IsDigit(w[0]);
    ParseDecimalUnsigned(sign, w);
    IpLiteral.NoDotInDigits(w);
    SplitOnNone(w, '.');
    DecimalOfOne(sign == "-", w);
  }

  /** Reading a signed literal is reading its body's `.`-pieces. */
  lemma ParseDecimalUnsigned(sign: string, body: string)
    requires sign == "" || sign == "-" || sign == "+"
    requires body != [] && body[0] != '-' && body[0] != '+'
    ensures ParseDecimal(sign + body) == DecimalOfParts(sign == "-", SplitOn(body, "."))
  {
    assert (sign + body)[|sign|..] == body;
  }

  lemma DotSplit(w: string, f: string)
    requires AllDigits(w) && AllDigits(f)
    ensures SplitOn(w + "." + f, ".") == [w, f]
  {
    IpLiteral.NoDotInDigits(w);
    IpLiteral.NoDotInDigits(f);
    SplitOnCons(w, '.', f);
    SplitOnNone(f, '.');
  }

  lemma DecimalOfTwo(negative: bool, w: string, f: string)
    requires AllDigits(w) && AllDigits(f) && w + f != []
    ensures DecimalOfParts(negative, [w, f])
      == Some(Decimal(if negative then -(DigitsValue(w + f) as int) else DigitsValue(w + f) as int, |f|))
  {
  }

  lemma DecimalOfOne(negative: bool, w: string)
    requires AllDigits(w) && w != []
    ensures DecimalOfParts(negative, [w])
      == Some(Decimal(if negative then -(DigitsValue(w) as int) else DigitsValue(w) as int, 0))
  {
    assert w + "" == w;
  }

  /** A whole number of some unit reads back as that many times the unit. */
  lemma WholeAmount(n: nat, unit: string)
    ensures TokensSize([NatToString(n), unit]) == Some(n * Multiplier(unit))
  {
    ParseDecimalOfNat(n);
    assert Pow10(0) == 1;
  }

  lemma ParseDecimalOfNat(n: nat)
    ensures ParseDecimal(NatToString(n)) == Some(Decimal(n, 0))
  {
    var s := NatToString(n);
    assert "" + s == s;
    ParseDecimalOfWhole("", s);
    DigitsValueOfNatToString(n);
  }

  /** The total of a `transfer` value: it must split on `", "` into exactly
      two parts (else the unpacking raises), and both parts must parse. */
  function TrafficTotal(transfer: string): (r: Option<int>)
    ensures var parts := SplitOn(transfer, ", ");
      r.Some? <==> |parts| == 2 && ParseTrafficSize(parts[0]).Some? && ParseTrafficSize(parts[1]).Some?
    ensures r.Some? ==> var parts := SplitOn(transfer, ", ");
      r.value == ParseTrafficSize(parts[0]).value + ParseTrafficSize(parts[1]).value
  {
    var parts := SplitOn(transfer, ", ");
    if |parts| != 2 then None
    else match (ParseTrafficSize(parts[0]), ParseTrafficSize(parts[1]))
      case (Some(rx), Some(tx)) => Some(rx + tx)
      case _ => None
  }

  /** `update_client_traffic_usage(client, stats)`: nothing for empty stats or
      a transfer value that does not parse; otherwise the total is written
      through `update_client` when it differs from the client's
      `traffic_used` (a failing update is caught). */
  function UpdateTrafficSpec(t: Tables, c: Client, stats: map<string, string>): (r: Tables)
    requires ValidTables(t)
    ensures ValidTables(r)
  {
    if stats == map[] then t
    else
      var transfer := if "transfer" in stats then stats["transfer"] else "0 B, 0 B";
      match TrafficTotal(transfer)
      case None => t
      case Some(total) =>
        if total == c.trafficUsed then t
        else
          UpdateClientSpecOutcome(t, c.(trafficUsed := total));
          UpdateClientSpec(t, c.(trafficUsed := total)).0
  }

  /** The row `update_client_traffic_usage` writes for the stored row `c`:
      its `traffic_used` replaced by the parsed total when that parses and
      differs; `c` itself otherwise. */
  function RefreshedRow(c: Client, stats: map<string, string>): (r: Client)
    ensures r == c.(trafficUsed := r.trafficUsed)
  {
    var transfer := if "transfer" in stats then stats["transfer"] else "0 B, 0 B";
    if stats != map[] && TrafficTotal(transfer).Some? && TrafficTotal(transfer).value != c.trafficUsed
    then c.(trafficUsed := TrafficTotal(transfer).value)
    else c
  }

  /** For a client as stored, the update changes that row into its refreshed
      form and nothing else; when the total does not parse or is unchanged,
      nothing is written at all. */
  lemma UpdateTrafficWrites(t: Tables, i: int, stats: map<string, string>)
    requires ValidTables(t) && 0 <= i < |t.clients|
    ensures UpdateTrafficSpec(t, t.clients[i], stats) == t.(clients := t.clients[i := RefreshedRow(t.clients[i], stats)])
    ensures RefreshedRow(t.clients[i], stats) == t.clients[i] ==> UpdateTrafficSpec(t, t.clients[i], stats) == t
  {
    var c := t.clients[i];
    var transfer := if "transfer" in stats then stats["transfer"] else "0 B, 0 B";
    if stats != map[] && TrafficTotal(transfer).Some? && TrafficTotal(transfer).value != c.trafficUsed {
      var c' := c.(trafficUsed := TrafficTotal(transfer).value);
      StoredRowWrite(t, i, c');
    } else {
      assert t.clients[i := c] == t.clients;
    }
  }

  /** Writing a stored row back with only its own fields changed: the row
      becomes exactly what was written. */
  lemma StoredRowWrite(t: Tables, i: int, c: Client)
    requires ValidTables(t) && 0 <= i < |t.clients|
    requires c.id == t.clients[i].id && c.name == t.clients[i].name && c.trafficLimit == t.clients[i].trafficLimit
    requires c.publicKey == t.clients[i].publicKey && c.privateKey == t.clients[i].privateKey
    requires c.presharedKey == t.clients[i].presharedKey && c.ipAddress == t.clients[i].ipAddress
    requires c.createdAt == t.clients[i].createdAt
    ensures UpdateClientSpec(t, c) == (t.(clients := t.clients[i := c]), Ok(true))
  {
    var k := IndexOfId(t.clients, c.id.value);
    assert ClientId(t.clients[k]) == ClientId(t.clients[i]);
    assert !NameTakenByOther(t.clients, c.name, i) by {
      forall j | 0 <= j < |t.clients| && j != i ensures t.clients[j].name != c.name {
        assert ClientName(t.clients[j]) != ClientName(t.clients[i]);
      }
    }
    assert Normalized(c.trafficLimit);
  }
}
