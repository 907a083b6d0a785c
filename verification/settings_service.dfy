/** The settings service: defaults for the stored DNS and endpoint settings,
    and the validators applied to what an administrator types in. */
module SettingsService {
  import opened Wrappers
  import opened PyText
  import opened IpLiteral

  const FallbackDns := "1.1.1.1, 8.8.8.8"

  /** `get_default_dns`: the stored `default_dns`, or the fallback when it is
      missing or empty. */
  function GetDefaultDns(stored: Option<string>): (r: string)
    ensures r != ""
    ensures stored.Some? && stored.value != "" ==> r == stored.value
    ensures stored.None? || stored.value == "" ==> r == FallbackDns
  {
    if stored.Some? && stored.value != "" then stored.value else FallbackDns
  }

  /** `get_default_endpoint`: the stored `default_endpoint`, or None when it is
      missing, empty or only whitespace. */
  function GetDefaultEndpoint(stored: Option<string>): (r: Option<string>)
    ensures r.Some? <==> stored.Some? && Strip(stored.value) != ""
    ensures r.Some? ==> r == stored
  {
    if stored.Some? && stored.value != "" && Strip(stored.value) != "" then stored else None
  }

  /** `validate_dns_servers`: every comma-separated entry, once stripped, is
      empty or an IP address literal. */
  predicate ValidateDnsServers(dns: string) {
    var servers := SplitOn(dns, ",");
    forall i :: 0 <= i < |servers| ==> Strip(servers[i]) == "" || IsIpAddress(Strip(servers[i]))
  }

  predicate IsAsciiAlnum(c: char) { 'a' <= c <= 'z' || 'A' <= c <= 'Z' || '0' <= c <= '9' }

  /** One label of `[a-zA-Z0-9]([a-zA-Z0-9-]{0,61}[a-zA-Z0-9])?`. */
  predicate IsLabel(l: string) {
    1 <= |l| <= 63 && IsAsciiAlnum(l[0]) && IsAsciiAlnum(l[|l| - 1])
    && forall i :: 0 <= i < |l| ==> IsAsciiAlnum(l[i]) || l[i] == '-'
  }

  /** The whole-string match of the domain pattern: labels joined by dots. */
  predicate IsDomainName(s: string) {
    var labels := SplitOn(s, ".");
    forall i :: 0 <= i < |labels| ==> IsLabel(labels[i])
  }

  /** `validate_endpoint`: not blank, and once stripped either an IP address
      literal or a domain name. */
  function ValidateEndpoint(endpoint: string): (r: bool)
    ensures r ==> Strip(endpoint) != ""
    ensures r && !IsIpAddress(Strip(endpoint)) ==>
      var s := Strip(endpoint);
      IsAsciiAlnum(s[0]) && IsAsciiAlnum(s[|s| - 1])
      && forall i :: 0 <= i < |s| ==> IsAsciiAlnum(s[i]) || s[i] == '-' || s[i] == '.'
  {
    var s := Strip(endpoint);
    if endpoint == "" || s == "" then false
    else if IsIpAddress(s) then true
    else
      var ok := IsDomainName(s);
      if ok then DomainNameChars(s); ok else ok
  }

  lemma {:induction false} DomainNameChars(s: string)
    requires IsDomainName(s)
    ensures s != [] && IsAsciiAlnum(s[0]) && IsAsciiAlnum(s[|s| - 1])
    ensures forall i :: 0 <= i < |s| ==> IsAsciiAlnum(s[i]) || s[i] == '-' || s[i] == '.'
  {
    var labels := SplitOn(s, ".");
    JoinedLabels(labels);
  }

  lemma {:induction false} JoinedLabels(labels: seq<string>)
    requires |labels| >= 1 && forall i :: 0 <= i < |labels| ==> IsLabel(labels[i])
    ensures var s := Join(labels, ".");
      s != [] && IsAsciiAlnum(s[0]) && IsAsciiAlnum(s[|s| - 1])
      && forall i :: 0 <= i < |s| ==> IsAsciiAlnum(s[i]) || s[i] == '-' || s[i] == '.'
  {
    if |labels| > 1 {
      JoinedLabels(labels[1..]);
      var rest := Join(labels[1..], ".");
      var s := labels[0] + "." + rest;
      assert Join(labels, ".") == s;
      forall i | 0 <= i < |s| ensures IsAsciiAlnum(s[i]) || s[i] == '-' || s[i] == '.' {
        if i < |labels[0]| { assert s[i] == labels[0][i]; }
        else if i > |labels[0]| { assert s[i] == rest[i - |labels[0]| - 1]; }
      }
      assert s[|s| - 1] == rest[|rest| - 1];
    }
  }

  /** A dotted quad is a valid endpoint. */
  lemma DottedQuadEndpointValid(n: nat)
    requires n < Ipv4Count
    ensures ValidateEndpoint(Ipv4ToString(n))
  {
    Ipv4ToStringIsIpAddress(n);
    QuadEnds(n);
    StripUnchanged(Ipv4ToString(n));
  }

  /** On a list whose entries contain no comma, the validator accepts
      exactly when every entry, stripped, is empty or an IP address literal. */
  lemma DnsServersOfEntries(entries: seq<string>)
    requires |entries| >= 1 && forall i :: 0 <= i < |entries| ==> ',' !in entries[i]
    ensures ValidateDnsServers(Join(entries, ",")) <==>
      forall i :: 0 <= i < |entries| ==> Strip(entries[i]) == "" || IsIpAddress(Strip(entries[i]))
  {
    SplitOnJoin(entries, ',');
  }

  lemma QuadEnds(n: nat)
    requires n < Ipv4Count
    ensures var s := Ipv4ToString(n); s != [] && !IsSpace(s[0]) && !IsSpace(s[|s| - 1])
  {
    var s := Ipv4ToString(n);
    assert s[0] == NatToString(n / 0x100_0000)[0];
    assert s[|s| - 1] == NatToString(n % 256)[|NatToString(n % 256)| - 1];
  }
}
