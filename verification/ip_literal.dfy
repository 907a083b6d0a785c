/** IP address literals as Python's `ipaddress` module reads them:
    `ip_address(s)` succeeds on a dotted-quad IPv4 literal or an IPv6 literal,
    and `IPv4Network(s)` (strict) reads `address[/prefix]` with no host bits
    set. Addresses are numbers below 2^32; `str()` of an address is its dotted
    quad. */
module IpLiteral {
  import opened Wrappers
  import opened PyText

  const Ipv4Count: nat := 0x1_0000_0000

  /** One dotted-quad component: 1-3 ASCII digits, no leading zero, at most 255. */
  function ParseOctet(s: string): (r: Option<nat>)
    ensures r.Some? ==> r.value < 256
  {
    if s == [] || !AllDigits(s) || |s| > 3 || (|s| > 1 && s[0] == '0') then None
    else if DigitsValue(s) > 255 then None
    else Some(DigitsValue(s))
  }

  /** `IPv4Address(s)`: exactly four octets separated by dots. */
  function ParseIpv4(s: string): (r: Option<nat>)
    ensures r.Some? ==> r.value < Ipv4Count
  {
    var parts := SplitOn(s, ".");
    if |parts| != 4 then None
    else
      match (ParseOctet(parts[0]), ParseOctet(parts[1]), ParseOctet(parts[2]), ParseOctet(parts[3]))
      case (Some(a), Some(b), Some(c), Some(d)) => Some(((a * 256 + b) * 256 + c) * 256 + d)
      case _ => None
  }

  /** `str(IPv4Address(n))`. */
  function Ipv4ToString(n: nat): string
    requires n < Ipv4Count
  {
    NatToString(n / 0x100_0000) + "." + (NatToString(n / 0x1_0000 % 256) + "."
      + (NatToString(n / 0x100 % 256) + "." + NatToString(n % 256)))
  }

  predicate IsHexDigit(c: char) { IsDigit(c) || 'a' <= c <= 'f' || 'A' <= c <= 'F' }

  /** One IPv6 group: 1-4 hexadecimal digits. */
  predicate IsHextet(s: string) {
    1 <= |s| <= 4 && forall i :: 0 <= i < |s| ==> IsHexDigit(s[i])
  }

  /** The index of the only empty inner group (the `::`), None when there is no
      empty inner group, and -1 when there are several. */
  function SkipIndex(parts: seq<string>, i: nat): (r: int)
    requires 1 <= i <= |parts|
    ensures r == -2 || r == -1 || (i <= r < |parts| - 1 && parts[r] == [])
    decreases |parts| - i
  {
    if i >= |parts| - 1 then -2
    else
      var later := SkipIndex(parts, i + 1);
      if parts[i] != [] then later
      else if later == -2 then i
      else -1
  }

  /** The IPv6 groups of an address without its scope, after an embedded IPv4
      tail has been turned into two groups. */
  predicate ValidHextets(parts: seq<string>) {
    3 <= |parts| <= 9 &&
    var skip := SkipIndex(parts, 1);
    if skip == -1 then false
    else if skip == -2 then
      |parts| == 8 && forall i :: 0 <= i < 8 ==> IsHextet(parts[i])
    else
      var hi := if parts[0] == [] then skip - 1 else skip;
      var lo := if parts[|parts| - 1] == [] then |parts| - skip - 2 else |parts| - skip - 1;
      (parts[0] == [] ==> hi == 0) && (parts[|parts| - 1] == [] ==> lo == 0)
      && hi + lo < 8
      && (forall i :: 0 <= i < hi ==> IsHextet(parts[i]))
      && (forall i :: |parts| - lo <= i < |parts| ==> IsHextet(parts[i]))
  }

  /** `IPv6Address(s)`: an optional non-empty `%scope`, then at least three
      colon-separated groups, at most one `::`, and optionally a dotted-quad
      tail standing for the last two groups. */
  predicate IsIpv6(s: string) {
    var cut := IndexOf(s, "%");
    var addr := if cut < 0 then s else s[..cut];
    var scope := if cut < 0 then "" else s[cut + 1..];
    (cut < 0 || (scope != [] && !Contains(scope, "%"))) &&
    var parts := SplitOn(addr, ":");
    |parts| >= 3 &&
    if Contains(parts[|parts| - 1], ".") then
      ParseIpv4(parts[|parts| - 1]).Some? && ValidHextets(parts[..|parts| - 1] + ["0", "0"])
    else ValidHextets(parts)
  }

  /** `ipaddress.ip_address(s)` succeeds. */
  predicate IsIpAddress(s: string) {
    ParseIpv4(s).Some? || IsIpv6(s)
  }

  /** Reads `address[/mask]` as `IPv4Network(s)` does with `strict=True`:
      the mask is absent (a /32), a prefix length, or a dotted netmask or
      hostmask (see `PrefixOfText`), and the address has no bits set below
      the prefix. The result is (network address, prefix). */
  function ParseIpv4Network(s: string): (r: Option<(nat, nat)>)
    ensures r.Some? ==> r.value.1 <= 32 && r.value.0 < Ipv4Count
    ensures r.Some? ==> r.value.0 % Pow2(32 - r.value.1) == 0
  {
    NetworkOfSplit(SplitOn(s, "/"))
  }

  /** The network read from the text split at each `/`: at most one `/`. */
  function NetworkOfSplit(parts: seq<string>): (r: Option<(nat, nat)>)
    requires |parts| >= 1
    ensures r.Some? ==> r.value.1 <= 32 && r.value.0 < Ipv4Count
    ensures r.Some? ==> r.value.0 % Pow2(32 - r.value.1) == 0
  {
    if |parts| > 2 then None
    else NetworkOf(ParseIpv4(parts[0]), if |parts| == 1 then Some(32) else PrefixOfText(parts[1]))
  }

  /** The strict check once the address and the prefix length are read. */
  function NetworkOf(address: Option<nat>, prefix: Option<nat>): (r: Option<(nat, nat)>)
    requires address.Some? ==> address.value < Ipv4Count
    requires prefix.Some? ==> prefix.value <= 32
    ensures r.Some? ==> r.value.1 <= 32 && r.value.0 < Ipv4Count
    ensures r.Some? ==> r.value.0 % Pow2(32 - r.value.1) == 0
  {
    match (address, prefix)
    case (Some(a), Some(p)) => if a % Pow2(32 - p) == 0 then Some((a, p)) else None
    case _ => None
  }

  /** `_make_netmask` on the text after the `/`: ASCII digits reading 0-32
      are the prefix length itself; any other text must be a dotted quad,
      read first as a netmask and, when it is none, as a hostmask (its
      complement a netmask). All-ones and all-zeros are thus netmasks. */
  function PrefixOfText(s: string): (r: Option<nat>)
    ensures r.Some? ==> r.value <= 32
  {
    if s != [] && AllDigits(s) && DigitsValue(s) <= 32 then Some(DigitsValue(s))
    else match ParseIpv4(s)
      case None => None
      case Some(m) => QuadMaskPrefix(m)
  }

  /** `_prefix_from_ip_string` on the address `m`: its prefix length as a
      netmask, else as a hostmask. */
  function QuadMaskPrefix(m: nat): (r: Option<nat>)
    requires m < Ipv4Count
    ensures r.Some? ==> r.value <= 32
  {
    var asNetmask := MaskPrefixFrom(m, 0);
    if asNetmask.Some? then asNetmask else MaskPrefixFrom(Ipv4Count - 1 - m, 0)
  }

  /** The netmask of a /p network: p one bits, then 32 - p zero bits. */
  function Netmask(p: nat): (r: nat)
    requires p <= 32
    ensures r < Ipv4Count
  {
    Pow2AtMost(32 - p);
    Ipv4Count - Pow2(32 - p)
  }

  /** The hostmask of a /p network: 32 - p one bits, below p zero bits. */
  function Hostmask(p: nat): (r: nat)
    requires p <= 32
    ensures r < Ipv4Count && r + Netmask(p) == Ipv4Count - 1
  {
    Ipv4Count - 1 - Netmask(p)
  }

  /** `_prefix_from_ip_int`: the least prefix length from `p` on whose
      netmask is `m`; None when `m` is not a netmask. */
  function MaskPrefixFrom(m: nat, p: nat): (r: Option<nat>)
    requires p <= 33
    ensures r.Some? ==> p <= r.value <= 32 && Netmask(r.value) == m
    decreases 33 - p
  {
    if p > 32 then None
    else if Netmask(p) == m then Some(p)
    else MaskPrefixFrom(m, p + 1)
  }

  function Pow2(k: nat): (r: nat)
    ensures r >= 1
  {
    if k == 0 then 1 else 2 * Pow2(k - 1)
  }

  /** `network.hosts()` in ascending order: every address of the network but
      its network and broadcast addresses, except that a /31 yields both of its
      addresses and a /32 its single one. */
  function Hosts(network: nat, prefix: nat): (r: seq<nat>)
    requires prefix <= 32
    ensures forall i :: 0 <= i < |r| ==> network <= r[i] < network + Pow2(32 - prefix)
    ensures prefix < 31 ==> forall i :: 0 <= i < |r| ==> network < r[i] < network + Pow2(32 - prefix) - 1
    ensures forall i, j :: 0 <= i < j < |r| ==> r[i] < r[j]
  {
    var size := Pow2(32 - prefix);
    if prefix >= 31 then seq(size, i requires 0 <= i < size => network + i)
    else seq(size - 2, i requires 0 <= i < size - 2 => network + 1 + i)
  }

  lemma Pow2Add(a: nat, b: nat)
    ensures Pow2(a + b) == Pow2(a) * Pow2(b)
  {
    if a > 0 {
      Pow2Add(a - 1, b);
    }
  }

  lemma Pow2Of32()
    ensures Pow2(32) == Ipv4Count
  {
    assert Pow2(4) == 16 by {
      assert Pow2(1) == 2 && Pow2(2) == 4 && Pow2(3) == 8;
    }
    Pow2Add(4, 4);
    Pow2Add(8, 8);
    Pow2Add(16, 16);
  }

  lemma MulMono(a: nat, x: nat, y: nat)
    requires x <= y
    ensures a * x <= a * y
  {
    assert a * y - a * x == a * (y - x);
  }

  /** A network address with its host bits clear leaves room for the whole
      block below 2^32. */
  lemma NetworkFits(net: nat, prefix: nat)
    requires prefix <= 32 && net < Ipv4Count && net % Pow2(32 - prefix) == 0
    ensures net + Pow2(32 - prefix) <= Ipv4Count
  {
    Pow2Add(32 - prefix, prefix);
    Pow2Of32();
    BlockFits(net, Pow2(32 - prefix), Pow2(prefix), Ipv4Count);
  }

  lemma BlockFits(net: nat, size: nat, count: nat, total: nat)
    requires size >= 1 && size * count == total && net < total && net % size == 0
    ensures net + size <= total
  {
    var q := net / size;
    assert net == size * q + net % size;
    assert net == size * q;
    if q >= count {
      MulMono(size, count, q);
      assert false;
    }
    MulMono(size, q + 1, count);
    assert size * (q + 1) == size * q + size;
  }

  lemma NatToStringShort(n: nat)
    requires n < 1000
    ensures |NatToString(n)| <= 3
  {
    if n >= 10 {
      NatToStringShort(n / 10);
    }
  }

  lemma ParseOctetOfNatToString(n: nat)
    requires n < 256
    ensures ParseOctet(NatToString(n)) == Some(n)
  {
    NatToStringShort(n);
    DigitsValueOfNatToString(n);
  }

  lemma NoDotInDigits(s: string)
    requires AllDigits(s)
    ensures '.' !in s
  {
  }

  /** `IPv4Address(str(IPv4Address(n))) == n`: the dotted quad reads back. */
  lemma ParseIpv4OfIpv4ToString(n: nat)
    requires n < Ipv4Count
    ensures ParseIpv4(Ipv4ToString(n)) == Some(n)
  {
    var a, b, c, d := n / 0x100_0000, n / 0x1_0000 % 256, n / 0x100 % 256, n % 256;
    SplitDottedQuad(NatToString(a), NatToString(b), NatToString(c), NatToString(d));
    ParseOctetOfNatToString(a);
    ParseOctetOfNatToString(b);
    ParseOctetOfNatToString(c);
    ParseOctetOfNatToString(d);
    QuadDigits(n);
  }

  lemma SplitDottedQuad(sa: string, sb: string, sc: string, sd: string)
    requires AllDigits(sa) && AllDigits(sb) && AllDigits(sc) && AllDigits(sd)
    ensures SplitOn(sa + "." + (sb + "." + (sc + "." + sd)), ".") == [sa, sb, sc, sd]
  {
    NoDotInDigits(sd);
    SplitOnNone(sd, '.');
    SplitDotStep(sc, sd, [sd]);
    SplitDotStep(sb, sc + "." + sd, [sc, sd]);
    SplitDotStep(sa, sb + "." + (sc + "." + sd), [sb, sc, sd]);
  }

  lemma SplitDotStep(x: string, rest: string, tail: seq<string>)
    requires AllDigits(x) && SplitOn(rest, ".") == tail
    ensures SplitOn(x + "." + rest, ".") == [x] + tail
  {
    NoDotInDigits(x);
    SplitOnCons(x, '.', rest);
  }

  lemma QuadDigits(n: nat)
    requires n < Ipv4Count
    ensures n == ((n / 0x100_0000 * 256 + n / 0x1_0000 % 256) * 256 + n / 0x100 % 256) * 256 + n % 256
  {
    assert n / 0x100 == (n / 0x1_0000) * 256 + n / 0x100 % 256;
    assert n / 0x1_0000 == (n / 0x100_0000) * 256 + n / 0x1_0000 % 256;
    assert n == (n / 0x100) * 256 + n % 256;
  }

  /** A dotted quad is an IP address literal. */
  lemma Ipv4ToStringIsIpAddress(n: nat)
    requires n < Ipv4Count
    ensures IsIpAddress(Ipv4ToString(n))
  {
    ParseIpv4OfIpv4ToString(n);
  }

  // ------------------------------------------------------ network masks

  lemma {:induction false} Pow2Below(a: nat, b: nat)
    requires a < b
    ensures Pow2(a) < Pow2(b)
  {
    if a + 1 < b {
      Pow2Below(a, b - 1);
    }
  }

  lemma Pow2AtMost(k: nat)
    requires k <= 32
    ensures Pow2(k) <= Ipv4Count
  {
    Pow2Of32();
    if k < 32 {
      Pow2Below(k, 32);
    }
  }

  lemma Pow2Even(k: nat)
    requires k >= 1
    ensures Pow2(k) % 2 == 0
  {
  }

  /** Different prefix lengths have different netmasks. */
  lemma NetmaskInjective(p: nat, q: nat)
    requires p <= 32 && q <= 32 && p != q
    ensures Netmask(p) != Netmask(q)
  {
    if p < q {
      Pow2Below(32 - q, 32 - p);
    } else {
      Pow2Below(32 - p, 32 - q);
    }
  }

  lemma {:induction false} MaskPrefixFinds(p: nat, q: nat)
    requires q <= p <= 32
    ensures MaskPrefixFrom(Netmask(p), q) == Some(p)
    decreases p - q
  {
    if q < p {
      NetmaskInjective(p, q);
      MaskPrefixFinds(p, q + 1);
    }
  }

  lemma {:induction false} MaskPrefixMisses(m: nat, q: nat)
    requires q <= 33
    requires forall j :: q <= j <= 32 ==> Netmask(j) != m
    ensures MaskPrefixFrom(m, q) == None
    decreases 33 - q
  {
    if q <= 32 {
      MaskPrefixMisses(m, q + 1);
    }
  }

  /** The hostmask of a /p network, 0 < p < 32, is not itself a netmask: a
      netmask plus a hostmask of the same length is 2^32 - 1, which is odd,
      while both are even here. */
  lemma HostmaskIsNoNetmask(p: nat)
    requires 0 < p < 32
    ensures MaskPrefixFrom(Hostmask(p), 0) == None
  {
    var h := Hostmask(p);
    assert h == Pow2(32 - p) - 1;
    Pow2Even(32 - p);
    Pow2Of32();
    forall j | 0 <= j <= 32 ensures Netmask(j) != h {
      if j < 32 {
        Pow2Even(32 - j);
      } else {
        assert Netmask(j) == Ipv4Count - 1;
        Pow2Below(32 - p, 32);
      }
    }
    MaskPrefixMisses(h, 0);
  }

  lemma NotInDigits(s: string, c: char)
    requires AllDigits(s) && !IsDigit(c)
    ensures c !in s
  {
  }

  /** A dotted quad has no `/`, and is no string of digits. */
  lemma QuadChars(n: nat)
    requires n < Ipv4Count
    ensures '/' !in Ipv4ToString(n) && !AllDigits(Ipv4ToString(n))
  {
    var a, b := NatToString(n / 0x100_0000), NatToString(n / 0x1_0000 % 256);
    var c, d := NatToString(n / 0x100 % 256), NatToString(n % 256);
    NotInDigits(a, '/');
    NotInDigits(b, '/');
    NotInDigits(c, '/');
    NotInDigits(d, '/');
    assert Ipv4ToString(n) == a + "." + (b + "." + (c + "." + d));
    assert Ipv4ToString(n)[|a|] == '.';
  }

  /** `address/mask` splits at its one `/`. */
  lemma SplitAtSlash(n: nat, mask: string)
    requires n < Ipv4Count && '/' !in mask
    ensures SplitOn(Ipv4ToString(n) + "/" + mask, "/") == [Ipv4ToString(n), mask]
  {
    QuadChars(n);
    SplitOnNone(mask, '/');
    SplitOnCons(Ipv4ToString(n), '/', mask);
  }

  /** A bare address is a /32 network. */
  lemma NetworkOfAddress(a: nat)
    requires a < Ipv4Count
    ensures ParseIpv4Network(Ipv4ToString(a)) == Some((a, 32))
  {
    QuadChars(a);
    SplitOnNone(Ipv4ToString(a), '/');
    ParseIpv4OfIpv4ToString(a);
  }

  /** `address/p` is read as the network (address, p) exactly when the
      address has no bits set below the prefix. */
  lemma NetworkWithPrefix(a: nat, p: nat)
    requires a < Ipv4Count && p <= 32
    ensures ParseIpv4Network(Ipv4ToString(a) + "/" + NatToString(p))
         == if a % Pow2(32 - p) == 0 then Some((a, p)) else None
  {
    var mask := NatToString(p);
    NotInDigits(mask, '/');
    SplitAtSlash(a, mask);
    ParseIpv4OfIpv4ToString(a);
    DigitsValueOfNatToString(p);
    assert PrefixOfText(mask) == Some(p);
    NetworkOfParts(Ipv4ToString(a) + "/" + mask, Ipv4ToString(a), mask, a, p);
  }

  /** `address/netmask` is read as the network (address, p). */
  lemma NetworkWithNetmask(a: nat, p: nat)
    requires a < Ipv4Count && p <= 32 && a % Pow2(32 - p) == 0
    ensures ParseIpv4Network(Ipv4ToString(a) + "/" + Ipv4ToString(Netmask(p))) == Some((a, p))
  {
    NetmaskPrefix(p);
    NetworkWithMask(a, Netmask(p), p);
  }

  /** `address/hostmask` is read as the network (address, p) for
      0 < p < 32; the hostmasks of /0 and /32 are the netmasks of /32 and
      /0 and are read as those. */
  lemma NetworkWithHostmask(a: nat, p: nat)
    requires a < Ipv4Count && 0 < p < 32 && a % Pow2(32 - p) == 0
    ensures ParseIpv4Network(Ipv4ToString(a) + "/" + Ipv4ToString(Hostmask(p))) == Some((a, p))
  {
    HostmaskPrefix(p);
    NetworkWithMask(a, Hostmask(p), p);
  }

  /** `address/mask` for a dotted-quad mask `m` read as the prefix p. */
  lemma NetworkWithMask(a: nat, m: nat, p: nat)
    requires a < Ipv4Count && m < Ipv4Count && QuadMaskPrefix(m) == Some(p) && a % Pow2(32 - p) == 0
    ensures ParseIpv4Network(Ipv4ToString(a) + "/" + Ipv4ToString(m)) == Some((a, p))
  {
    var mask := Ipv4ToString(m);
    QuadChars(m);
    SplitAtSlash(a, mask);
    ParseIpv4OfIpv4ToString(a);
    ParseIpv4OfIpv4ToString(m);
    PrefixOfQuad(mask, m);
    NetworkOfParts(Ipv4ToString(a) + "/" + mask, Ipv4ToString(a), mask, a, p);
  }

  /** The mask text of a dotted quad `m` is read by `QuadMaskPrefix`. */
  lemma PrefixOfQuad(mask: string, m: nat)
    requires !AllDigits(mask) && ParseIpv4(mask) == Some(m)
    ensures PrefixOfText(mask) == QuadMaskPrefix(m)
  {
  }

  /** A netmask is read as its own prefix length. */
  lemma NetmaskPrefix(p: nat)
    requires p <= 32
    ensures QuadMaskPrefix(Netmask(p)) == Some(p)
  {
    MaskPrefixFinds(p, 0);
  }

  /** A hostmask of 0 < p < 32 is read as the prefix length p. */
  lemma HostmaskPrefix(p: nat)
    requires 0 < p < 32
    ensures QuadMaskPrefix(Hostmask(p)) == Some(p)
  {
    HostmaskIsNoNetmask(p);
    MaskPrefixFinds(p, 0);
    QuadMaskPrefixOfHostmask(Hostmask(p), Netmask(p), p);
  }

  lemma QuadMaskPrefixOfHostmask(m: nat, complement: nat, p: nat)
    requires m < Ipv4Count && complement == Ipv4Count - 1 - m
    requires MaskPrefixFrom(m, 0) == None && MaskPrefixFrom(complement, 0) == Some(p)
    ensures QuadMaskPrefix(m) == Some(p)
  {
  }


  /** The network read from `address/mask`, given what each part reads as. */
  lemma NetworkOfParts(s: string, addr: string, mask: string, a: nat, p: nat)
    requires SplitOn(s, "/") == [addr, mask] && ParseIpv4(addr) == Some(a) && PrefixOfText(mask) == Some(p)
    ensures ParseIpv4Network(s) == if a % Pow2(32 - p) == 0 then Some((a, p)) else None
  {
    var parts := SplitOn(s, "/");
    assert parts[0] == addr && parts[1] == mask;
    TwoParts(parts, a, p);
  }

  lemma TwoParts(parts: seq<string>, a: nat, p: nat)
    requires |parts| == 2 && ParseIpv4(parts[0]) == Some(a) && PrefixOfText(parts[1]) == Some(p)
    ensures NetworkOfSplit(parts) == if a % Pow2(32 - p) == 0 then Some((a, p)) else None
  {
  }
}
