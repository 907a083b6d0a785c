/** The portable `vpn://` link: the client configuration with its Endpoint
    host replaced by a resolved address, UTF-8 encoded, framed as Qt's
    `qCompress` does (a four-byte big-endian length, then the zlib stream)
    and written in unpadded URL-safe base64. DNS resolution and zlib
    compression are parameters. */
module VpnConverter {
  import opened Wrappers
  import opened PyText
  import opened Bytes
  import IpLiteral
  import Utf8
  import Base64Url

  // ------------------------------------------------------------ qCompress

  /** The `struct.error` text for a length that does not fit in 32 bits. */
  const PackError: string := "'I' format requires 0 <= number <= 4294967295"

  /** `qCompress(data)`: the length of `data` as four big-endian bytes, then
      `compress(data)`. Fails as `struct.pack` does when the length needs
      more than 32 bits. */
  function QCompress(data: seq<Byte>, compress: seq<Byte> -> seq<Byte>): (r: Result<seq<Byte>, string>)
  {
    match PackUint32(|data|)
    case None => Err(PackError)
    case Some(header) => Ok(header + compress(data))
  }

  /** The frame announces the uncompressed length and carries the
      compressed stream after it; only an over-long input is refused. */
  lemma QCompressFrame(data: seq<Byte>, compress: seq<Byte> -> seq<Byte>)
    ensures QCompress(data, compress).Ok? <==> |data| < Uint32Limit
    ensures QCompress(data, compress).Ok? ==>
      var q := QCompress(data, compress).value;
      |q| >= 4 && UnpackUint32(q[..4]) == |data| && q[4..] == compress(data)
  {
    if |data| < Uint32Limit {
      UnpackPack(|data|);
      var header := PackUint32(|data|).value;
      assert (header + compress(data))[..4] == header;
    }
  }

  // ------------------------------------------------------- Endpoint match

  const Keyword: string := "Endpoint"

  /** A character of the host group `[^\s:]`. */
  predicate IsHostChar(c: char) { !IsSpace(c) && c != ':' }

  predicate AllSpace(s: string) { forall i :: 0 <= i < |s| ==> IsSpace(s[i]) }

  /** The end of the run of characters satisfying `p` that starts at `i`. */
  function RunEnd(s: string, i: nat, p: char -> bool): (j: nat)
    requires i <= |s|
    ensures i <= j <= |s|
    ensures forall x :: i <= x < j ==> p(s[x])
    ensures j < |s| ==> !p(s[j])
    decreases |s| - i
  {
    if i == |s| || !p(s[i]) then i else RunEnd(s, i + 1, p)
  }

  /** A run is determined by where it stops. */
  lemma RunEndAt(s: string, i: nat, j: nat, p: char -> bool)
    requires i <= j <= |s|
    requires forall x :: i <= x < j ==> p(s[x])
    requires j < |s| ==> !p(s[j])
    ensures RunEnd(s, i, p) == j
  {
  }

  /** The groups of one match of
      `^(.*Endpoint\s*=\s*)([^\s:]+)(?::(\d+))(.*)$`. */
  datatype EndpointMatch = EndpointMatch(prefix: string, host: string, port: string, suffix: string)

  /** The text before the host: anything, then the keyword `kw`, optional
      whitespace, `=`, optional whitespace. */
  predicate IsLead(p: string, kw: string) {
    var q := RStrip(p);
    q != [] && q[|q| - 1] == '=' && EndsWith(RStrip(q[..|q| - 1]), kw)
  }

  /** After the keyword, ending at `i`: `\s*=\s*`, giving where the host
      starts. Both whitespace runs are maximal, since neither `=` nor a host
      character is whitespace. */
  function AfterAssign(line: string, i: nat): (r: Option<nat>)
    requires i <= |line|
    ensures r.Some? ==> i < r.value <= |line|
  {
    var e := RunEnd(line, i, IsSpace);
    if e == |line| || line[e] != '=' then None
    else Some(RunEnd(line, e + 1, IsSpace))
  }

  /** From the host start `h0`: `([^\s:]+)(?::(\d+))`, giving the end of
      the host and the end of the port. The host run is maximal because a
      shorter one would be followed by a host character instead of `:`. */
  function HostPort(line: string, h0: nat): (r: Option<(nat, nat)>)
    requires h0 <= |line|
    ensures r.Some? ==> h0 < r.value.0 && r.value.0 + 1 < r.value.1 <= |line|
    ensures r.Some? ==> line[r.value.0] == ':'
    ensures r.Some? ==> forall x :: h0 <= x < r.value.0 ==> IsHostChar(line[x])
    ensures r.Some? ==> forall x :: r.value.0 < x < r.value.1 ==> IsDigit(line[x])
    ensures r.Some? && r.value.1 < |line| ==> !IsDigit(line[r.value.1])
  {
    var h1 := RunEnd(line, h0, IsHostChar);
    if h1 == h0 || h1 == |line| || line[h1] != ':' then None
    else
      var d1 := RunEnd(line, h1 + 1, IsDigit);
      if d1 == h1 + 1 then None else Some((h1, d1))
  }

  /** The match whose keyword `kw` starts at `k`, if the rest of the
      pattern can follow it. Every quantifier after `.*` is forced, and
      `\d+` takes every digit because `(.*)$` accepts whatever remains. */
  function MatchAt(line: string, k: nat, kw: string): (r: Option<EndpointMatch>)
  {
    if k > |line| || !StartsWith(line[k..], kw) then None
    else
      match AfterAssign(line, k + |kw|)
      case None => None
      case Some(h0) =>
        match HostPort(line, h0)
        case None => None
        case Some((h1, d1)) =>
          Some(EndpointMatch(line[..h0], line[h0..h1], line[h1 + 1..d1], line[d1..]))
  }

  /** The greedy `.*`: the candidate at the latest position `j <= k` that
      succeeds. */
  function Latest<T>(k: nat, at: nat -> Option<T>): (r: Option<T>)
    decreases k
  {
    if at(k).Some? then at(k)
    else if k == 0 then None
    else Latest(k - 1, at)
  }

  lemma {:induction false} LatestFrom<T>(k: nat, at: nat -> Option<T>)
    requires Latest(k, at).Some?
    ensures exists j :: 0 <= j <= k && at(j) == Latest(k, at)
    decreases k
  {
    if at(k).None? {
      assert k != 0;
      LatestFrom(k - 1, at);
    }
  }

  lemma {:induction false} LatestFinds<T>(k: nat, j: nat, at: nat -> Option<T>)
    requires j <= k && at(j).Some?
    ensures Latest(k, at).Some?
    decreases k
  {
    if k > j && at(k).None? {
      LatestFinds(k - 1, j, at);
    }
  }

  /** The candidate matches of keyword `kw` in `line`, by position. */
  function Candidates(line: string, kw: string): nat -> Option<EndpointMatch> {
    (k: nat) => MatchAt(line, k, kw)
  }

  /** The match of the Endpoint pattern on one line, if any. */
  function EndpointLine(line: string): Option<EndpointMatch> {
    Latest(|line|, Candidates(line, Keyword))
  }

  /** `s.rstrip()` drops exactly a whitespace tail after a non-space. */
  lemma RStripSpaces(x: string, w: string)
    requires x != [] && !IsSpace(x[|x| - 1]) && AllSpace(w)
    ensures RStrip(x + w) == x
  {
    var r := RStrip(x + w);
    assert (x + w)[|x| - 1] == x[|x| - 1];
    assert forall i :: |x| <= i < |x + w| ==> (x + w)[i] == w[i - |x|];
    assert |r| == |x|;
    assert r == (x + w)[..|x|];
  }

  /** The groups of a match at `k` reassemble the line, with a host of
      host characters and a maximal non-empty run of digits as the port. */
  lemma MatchAtSound(line: string, k: nat, kw: string)
    requires MatchAt(line, k, kw).Some?
    ensures var m := MatchAt(line, k, kw).value;
      line == m.prefix + m.host + ":" + m.port + m.suffix
      && m.host != [] && (forall i :: 0 <= i < |m.host| ==> IsHostChar(m.host[i]))
      && m.port != [] && AllDigits(m.port)
      && (m.suffix != [] ==> !IsDigit(m.suffix[0]))
  {
    var h0 := AfterAssign(line, k + |kw|).value;
    var (h1, d1) := HostPort(line, h0).value;
    GroupsOf(line, h0, h1, d1);
  }

  /** The four groups cut at `h0`, `h1` and `d1`. */
  lemma GroupsOf(line: string, h0: nat, h1: nat, d1: nat)
    requires h0 < h1 && h1 + 1 < d1 <= |line| && line[h1] == ':'
    requires forall x :: h0 <= x < h1 ==> IsHostChar(line[x])
    requires forall x :: h1 < x < d1 ==> IsDigit(line[x])
    requires d1 < |line| ==> !IsDigit(line[d1])
    ensures var m := EndpointMatch(line[..h0], line[h0..h1], line[h1 + 1..d1], line[d1..]);
      line == m.prefix + m.host + ":" + m.port + m.suffix
      && m.host != [] && (forall i :: 0 <= i < |m.host| ==> IsHostChar(m.host[i]))
      && m.port != [] && AllDigits(m.port)
      && (m.suffix != [] ==> !IsDigit(m.suffix[0]))
  {
    Reassemble(line, h0, h1, d1);
    var host, port := line[h0..h1], line[h1 + 1..d1];
    assert forall i :: 0 <= i < |host| ==> host[i] == line[h0 + i];
    assert forall i :: 0 <= i < |port| ==> port[i] == line[h1 + 1 + i];
  }

  lemma Reassemble(line: string, h0: nat, h1: nat, d1: nat)
    requires h0 <= h1 < d1 <= |line| && line[h1] == ':'
    ensures line == line[..h0] + line[h0..h1] + ":" + line[h1 + 1..d1] + line[d1..]
  {
    assert line[h1..h1 + 1] == ":";
    assert line == line[..h0] + line[h0..h1] + line[h1..h1 + 1] + line[h1 + 1..d1] + line[d1..];
  }

  /** A successful match at some position, found by the greedy search. */
  lemma LatestIsMatch(line: string, kw: string) returns (k: nat)
    requires Latest(|line|, Candidates(line, kw)).Some?
    ensures MatchAt(line, k, kw) == Latest(|line|, Candidates(line, kw))
  {
    LatestFrom(|line|, Candidates(line, kw));
    var j :| 0 <= j <= |line| && Candidates(line, kw)(j) == Latest(|line|, Candidates(line, kw));
    k := j;
  }

  /** Soundness of the matcher: a matched line is its lead, a host without
      whitespace or colon, a colon, a maximal run of digits and the rest. */
  lemma EndpointLineSound(line: string)
    requires EndpointLine(line).Some?
    ensures var m := EndpointLine(line).value;
      line == m.prefix + m.host + ":" + m.port + m.suffix
      && IsLead(m.prefix, Keyword)
      && m.host != [] && (forall i :: 0 <= i < |m.host| ==> IsHostChar(m.host[i]))
      && m.port != [] && AllDigits(m.port)
      && (m.suffix != [] ==> !IsDigit(m.suffix[0]))
  {
    var k := LatestIsMatch(line, Keyword);
    MatchAtSound(line, k, Keyword);
    MatchAtLead(line, k, Keyword);
  }

  /** The text up to the host start is the text up to `i`, whitespace,
      `=` and whitespace. */
  lemma AssignLead(line: string, i: nat)
    requires 1 <= i <= |line| && !IsSpace(line[i - 1]) && AfterAssign(line, i).Some?
    ensures var q := RStrip(line[..AfterAssign(line, i).value]);
      q != [] && q[|q| - 1] == '=' && RStrip(q[..|q| - 1]) == line[..i]
  {
    var e := RunEnd(line, i, IsSpace);
    var h0 := RunEnd(line, e + 1, IsSpace);
    RStripRun(line, e + 1, h0);
    assert line[..e + 1][..e] == line[..e];
    RStripRun(line, i, e);
  }

  /** Stripping a prefix that ends in a run of whitespace after a
      non-space at `c - 1` leaves the text before the run. */
  lemma RStripRun(line: string, c: nat, j: nat)
    requires 0 < c <= j <= |line| && !IsSpace(line[c - 1])
    requires forall x :: c <= x < j ==> IsSpace(line[x])
    ensures RStrip(line[..j]) == line[..c]
  {
    assert line[..j] == line[..c] + line[c..j];
    assert line[..c][c - 1] == line[c - 1];
    assert forall x :: 0 <= x < j - c ==> line[c..j][x] == line[c + x];
    RStripSpaces(line[..c], line[c..j]);
  }

  lemma MatchAtLead(line: string, k: nat, kw: string)
    requires kw != [] && !IsSpace(kw[|kw| - 1])
    requires MatchAt(line, k, kw).Some?
    ensures IsLead(MatchAt(line, k, kw).value.prefix, kw)
  {
    var i := k + |kw|;
    assert line[k..][..|kw|] == kw;
    assert line[..i][k..] == kw;
    assert line[i - 1] == kw[|kw| - 1];
    AssignLead(line, i);
    var q := RStrip(line[..AfterAssign(line, i).value]);
    assert EndsWith(line[..i], kw);
  }

  lemma AfterAssignAt(line: string, i: nat, e: nat, h0: nat)
    requires i <= e < h0 <= |line| && line[e] == '='
    requires forall x :: i <= x < e ==> IsSpace(line[x])
    requires forall x :: e < x < h0 ==> IsSpace(line[x])
    requires h0 < |line| && !IsSpace(line[h0])
    ensures AfterAssign(line, i) == Some(h0)
  {
    RunEndAt(line, i, e, IsSpace);
    RunEndAt(line, e + 1, h0, IsSpace);
  }

  lemma HostPortAt(line: string, h0: nat, h1: nat)
    requires h0 < h1 && h1 + 1 < |line| && line[h1] == ':' && IsDigit(line[h1 + 1])
    requires forall x :: h0 <= x < h1 ==> IsHostChar(line[x])
    ensures HostPort(line, h0).Some?
  {
    RunEndAt(line, h0, h1, IsHostChar);
  }

  lemma MatchAtComplete(line: string, k: nat, kw: string, e: nat, h0: nat, h1: nat)
    requires k + |kw| <= e < h0 < h1 && h1 + 1 < |line|
    requires line[k..k + |kw|] == kw
    requires forall x :: k + |kw| <= x < e ==> IsSpace(line[x])
    requires line[e] == '=' && forall x :: e < x < h0 ==> IsSpace(line[x])
    requires forall x :: h0 <= x < h1 ==> IsHostChar(line[x])
    requires line[h1] == ':' && IsDigit(line[h1 + 1])
    ensures MatchAt(line, k, kw).Some?
  {
    AfterAssignAt(line, k + |kw|, e, h0);
    HostPortAt(line, h0, h1);
    assert line[k..][..|kw|] == kw;
  }

  lemma SplitConcat(x: string, y: string)
    ensures (x + y)[..|x|] == x && (x + y)[|x|..] == y
  {
  }

  /** The positions of each piece of a line of the pattern's shape. */
  lemma ShapeAt(a: string, kw: string, w1: string, w2: string, host: string, port: string, suffix: string)
    requires AllSpace(w1) && AllSpace(w2)
    requires host != [] && forall i :: 0 <= i < |host| ==> IsHostChar(host[i])
    requires port != [] && AllDigits(port)
    ensures MatchAt(a + kw + w1 + "=" + w2 + host + ":" + port + suffix, |a|, kw).Some?
  {
    var line := a + kw + w1 + "=" + w2 + host + ":" + port + suffix;
    var e := |a| + |kw| + |w1|;
    var h0 := e + 1 + |w2|;
    var h1 := h0 + |host|;
    assert |line| == h1 + 1 + |port| + |suffix|;
    assert line[|a|..|a| + |kw|] == kw;
    assert forall x :: |a| + |kw| <= x < e ==> line[x] == w1[x - |a| - |kw|];
    assert line[e] == '=';
    assert forall x :: e < x < h0 ==> line[x] == w2[x - e - 1];
    assert forall x :: h0 <= x < h1 ==> line[x] == host[x - h0];
    assert line[h1] == ':' && line[h1 + 1] == port[0];
    MatchAtComplete(line, |a|, kw, e, h0, h1);
  }

  /** Completeness of the matcher: every line of the pattern's shape
      matches, whatever precedes `Endpoint` and whatever follows the port. */
  lemma EndpointLineComplete(a: string, w1: string, w2: string, host: string, port: string, suffix: string)
    requires AllSpace(w1) && AllSpace(w2)
    requires host != [] && forall i :: 0 <= i < |host| ==> IsHostChar(host[i])
    requires port != [] && AllDigits(port)
    ensures EndpointLine(a + Keyword + w1 + "=" + w2 + host + ":" + port + suffix).Some?
  {
    var line := a + Keyword + w1 + "=" + w2 + host + ":" + port + suffix;
    ShapeAt(a, Keyword, w1, w2, host, port, suffix);
    LatestFinds(|line|, |a|, Candidates(line, Keyword));
  }

  /** A line without a colon has no port, so it never matches. */
  lemma MatchHasColon(line: string)
    ensures EndpointLine(line).Some? ==> ':' in line
  {
    if EndpointLine(line).Some? {
      EndpointLineSound(line);
    }
  }

  // ----------------------------------------------------------- rewriting

  /** What `socket.gethostbyname` does for a host: an address, a
      `socket.gaierror` (which the bot turns into None), or another
      exception, which escapes. */
  datatype Resolution = Resolved(ip: string) | NotFound | Raised(detail: string)

  /** `replace_endpoint` on one line: a host that is not an IP literal is
      resolved, and a non-empty answer replaces it; everything else keeps
      the line as it was. */
  function RewriteLine(line: string, resolve: string -> Resolution): (r: Result<string, string>)
  {
    match EndpointLine(line)
    case None => Ok(line)
    case Some(m) =>
      if IpLiteral.IsIpAddress(m.host) then Ok(line)
      else
        match resolve(m.host)
        case Raised(detail) => Err(detail)
        case NotFound => Ok(line)
        case Resolved(ip) => if ip == [] then Ok(line) else Ok(m.prefix + ip + ":" + m.port + m.suffix)
  }

  /** A rewritten line differs from the original only in its host, and
      only when the host was a name that resolved. */
  lemma RewriteLineChanges(line: string, resolve: string -> Resolution)
    requires RewriteLine(line, resolve).Ok? && RewriteLine(line, resolve).value != line
    ensures EndpointLine(line).Some?
    ensures var m := EndpointLine(line).value;
      !IpLiteral.IsIpAddress(m.host) && resolve(m.host).Resolved? && resolve(m.host).ip != []
      && line == m.prefix + m.host + ":" + m.port + m.suffix
      && RewriteLine(line, resolve).value == m.prefix + resolve(m.host).ip + ":" + m.port + m.suffix
  {
    EndpointLineSound(line);
  }

  /** A host that is already an IP literal leaves its line byte-identical. */
  lemma RewriteLineKeepsLiteral(line: string, resolve: string -> Resolution)
    requires EndpointLine(line).Some? && IpLiteral.IsIpAddress(EndpointLine(line).value.host)
    ensures RewriteLine(line, resolve) == Ok(line)
  {
  }

  /** A host that fails to resolve leaves its line byte-identical. */
  lemma RewriteLineKeepsUnresolved(line: string, resolve: string -> Resolution)
    requires EndpointLine(line).Some?
    requires resolve(EndpointLine(line).value.host) == NotFound
    ensures RewriteLine(line, resolve) == Ok(line)
  {
  }

  /** `re.sub` with `re.MULTILINE`, line by line: the first exception
      escapes, otherwise every line is rewritten. */
  function RewriteLines(lines: seq<string>, resolve: string -> Resolution): (r: Result<seq<string>, string>)
    ensures r.Ok? ==> |r.value| == |lines|
  {
    if lines == [] then Ok([])
    else
      match RewriteLine(lines[0], resolve)
      case Err(detail) => Err(detail)
      case Ok(first) =>
        match RewriteLines(lines[1..], resolve)
        case Err(detail) => Err(detail)
        case Ok(rest) => Ok([first] + rest)
  }

  /** `process_conf_data(data)`. */
  function ProcessConf(data: string, resolve: string -> Resolution): Result<string, string>
  {
    match RewriteLines(SplitOn(data, "\n"), resolve)
    case Err(detail) => Err(detail)
    case Ok(lines) => Ok(Join(lines, "\n"))
  }

  /** Lines that no rewrite touches come back unchanged. */
  lemma {:induction false} RewriteLinesIdentity(lines: seq<string>, resolve: string -> Resolution)
    requires forall i :: 0 <= i < |lines| ==> RewriteLine(lines[i], resolve) == Ok(lines[i])
    ensures RewriteLines(lines, resolve) == Ok(lines)
  {
    if lines != [] {
      RewriteLinesIdentity(lines[1..], resolve);
      assert lines == [lines[0]] + lines[1..];
    }
  }

  /** When no name resolves, the configuration passes through unchanged. */
  lemma ProcessConfUnresolved(data: string, resolve: string -> Resolution)
    requires forall h :: resolve(h) == NotFound
    ensures ProcessConf(data, resolve) == Ok(data)
  {
    var lines := SplitOn(data, "\n");
    forall i | 0 <= i < |lines|
      ensures RewriteLine(lines[i], resolve) == Ok(lines[i])
    {
    }
    RewriteLinesIdentity(lines, resolve);
  }

  /** A configuration without a colon anywhere has no Endpoint port to
      rewrite and passes through unchanged. */
  lemma ProcessConfWithoutColon(data: string, resolve: string -> Resolution)
    requires ':' !in data
    ensures ProcessConf(data, resolve) == Ok(data)
  {
    var lines := SplitOn(data, "\n");
    forall i | 0 <= i < |lines|
      ensures RewriteLine(lines[i], resolve) == Ok(lines[i])
    {
      JoinPartsIn(lines, "\n", i);
      MatchHasColon(lines[i]);
    }
    RewriteLinesIdentity(lines, resolve);
  }

  /** Every character of a part is a character of the joined text. */
  lemma {:induction false} JoinPartsIn(parts: seq<string>, sep: string, i: nat)
    requires i < |parts|
    ensures forall c :: c in parts[i] ==> c in Join(parts, sep)
  {
    if |parts| > 1 {
      if i > 0 {
        JoinPartsIn(parts[1..], sep, i - 1);
      }
    }
  }

  // ----------------------------------------------------------- the link

  const ErrorPrefix: string := "Ошибка при конвертации в vpn:// формат: "
  const Scheme: string := "vpn://"

  /** `conf_to_vpn_url(conf)`: `vpn://` and the unpadded URL-safe base64 of
      the framed, compressed UTF-8 bytes of the processed configuration.
      Any exception comes back wrapped in the bot's error text. */
  function ConfToVpnUrl(conf: string, resolve: string -> Resolution, compress: seq<Byte> -> seq<Byte>): (r: Result<string, string>)
  {
    match ProcessConf(conf, resolve)
    case Err(detail) => Err(ErrorPrefix + detail)
    case Ok(processed) =>
      match QCompress(Utf8.Encode(processed), compress)
      case Err(detail) => Err(ErrorPrefix + detail)
      case Ok(framed) => Ok(Scheme + Base64Url.Base64UrlEncode(framed))
  }

  /** What reads a link back: strip `vpn://`, re-pad and decode the base64,
      check the frame, decompress and decode UTF-8. */
  function VpnUrlPayload(url: string, decompress: seq<Byte> -> seq<Byte>): (r: Option<string>)
  {
    if !StartsWith(url, Scheme) then None
    else
      match Base64Url.UrlsafeB64Decode(Base64Url.Repad(url[|Scheme|..]))
      case None => None
      case Some(framed) =>
        if |framed| < 4 then None
        else
          var body := decompress(framed[4..]);
          if UnpackUint32(framed[..4]) != |body| then None
          else Utf8.Decode(body)
  }

  /** A link is `vpn://` followed by URL-safe base64 characters, never `=`;
      a failure always carries the bot's error text. */
  lemma ConfToVpnUrlShape(conf: string, resolve: string -> Resolution, compress: seq<Byte> -> seq<Byte>)
    ensures ConfToVpnUrl(conf, resolve, compress).Ok? ==>
      var url := ConfToVpnUrl(conf, resolve, compress).value;
      StartsWith(url, Scheme)
      && (forall i :: |Scheme| <= i < |url| ==> Base64Url.InAlphabet(url[i]))
      && '=' !in url[|Scheme|..]
    ensures ConfToVpnUrl(conf, resolve, compress).Err? ==>
      StartsWith(ConfToVpnUrl(conf, resolve, compress).error, ErrorPrefix)
  {
    match ProcessConf(conf, resolve)
    case Err(detail) =>
      assert (ErrorPrefix + detail)[..|ErrorPrefix|] == ErrorPrefix;
    case Ok(processed) =>
      match QCompress(Utf8.Encode(processed), compress)
      case Err(detail) =>
        assert (ErrorPrefix + detail)[..|ErrorPrefix|] == ErrorPrefix;
      case Ok(framed) =>
        var e := Base64Url.Base64UrlEncode(framed);
        Base64Url.Base64UrlEncodeShape(framed);
        assert (Scheme + e)[..|Scheme|] == Scheme;
        assert (Scheme + e)[|Scheme|..] == e;
  }

  /** The link carries the processed configuration: reading it back with
      the inverse of the compressor gives exactly that text. */
  lemma ConfToVpnUrlRoundTrip(conf: string, resolve: string -> Resolution,
                              compress: seq<Byte> -> seq<Byte>, decompress: seq<Byte> -> seq<Byte>)
    requires forall x :: decompress(compress(x)) == x
    requires ConfToVpnUrl(conf, resolve, compress).Ok?
    ensures ProcessConf(conf, resolve).Ok?
    ensures VpnUrlPayload(ConfToVpnUrl(conf, resolve, compress).value, decompress) == Some(ProcessConf(conf, resolve).value)
  {
    var processed := ProcessConf(conf, resolve).value;
    var bytes := Utf8.Encode(processed);
    QCompressFrame(bytes, compress);
    var framed := QCompress(bytes, compress).value;
    var e := Base64Url.Base64UrlEncode(framed);
    var url := Scheme + e;
    assert url[..|Scheme|] == Scheme && url[|Scheme|..] == e;
    Base64Url.RepadDecode(framed);
    Utf8.DecodeEncode(processed);
  }
}
