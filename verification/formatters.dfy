/** The text formatters of the bot: sizes in binary units, durations,
    truncation, booleans, `ip/mask`, and the status, expiry and quota flags
    of a client card. */
module Formatters {
  import opened Wrappers
  import opened PyText
  import opened Store

  // -------------------------------------------------------- traffic size

  const Units: seq<string> := ["B", "KB", "MB", "GB", "TB"]

  function Pow1024(k: nat): (r: nat)
    ensures r >= 1
  {
    if k == 0 then 1 else 1024 * Pow1024(k - 1)
  }

  /** The unit the size loop settles on when it has already reached `k`:
      it keeps dividing while the value is at least 1024 and a larger unit
      exists. */
  function UnitFrom(bytes: int, k: nat): (u: nat)
    requires k <= 4
    ensures k <= u <= 4
    decreases 4 - k
  {
    if k < 4 && bytes >= Pow1024(k + 1) then UnitFrom(bytes, k + 1) else k
  }

  function UnitFor(bytes: int): nat {
    UnitFrom(bytes, 0)
  }

  lemma {:induction false} UnitFromBounds(bytes: int, k: nat)
    requires k <= 4 && (k == 0 || Pow1024(k) <= bytes)
    ensures var u := UnitFrom(bytes, k);
      (u == 0 || Pow1024(u) <= bytes) && (u == 4 || bytes < Pow1024(u + 1))
    decreases 4 - k
  {
    if k < 4 && bytes >= Pow1024(k + 1) {
      UnitFromBounds(bytes, k + 1);
    }
  }

  /** The unit is the largest of B, KB, MB, GB, TB whose size `bytes`
      reaches, and B for anything below 1024, negative counts included. */
  lemma UnitForIsLargest(bytes: int)
    ensures UnitFor(bytes) <= 4
    ensures UnitFor(bytes) == 0 || Pow1024(UnitFor(bytes)) <= bytes
    ensures UnitFor(bytes) == 4 || bytes < Pow1024(UnitFor(bytes) + 1)
  {
    UnitFromBounds(bytes, 0);
  }

  /** `num / den` rounded to a whole number, halves to even, as `:.2f`
      rounds the exact binary value after scaling by 100. */
  function RoundHalfEven(num: int, den: int): (r: int)
    requires den > 0
    ensures 2 * (r * den - num) <= den && 2 * (num - r * den) <= den
  {
    var q := num / den;
    var rem := num % den;
    if 2 * rem > den || (2 * rem == den && q % 2 == 1) then q + 1 else q
  }

  function TwoDigits(d: nat): string
    requires d < 100
  {
    [DigitChar(d / 10), DigitChar(d % 10)]
  }

  /** `f"{num / den:.2f}"` for a non-negative quotient. */
  function Fixed2(num: nat, den: nat): string
    requires den > 0
  {
    var h := RoundHalfEven(num * 100, den);
    NatToString(h / 100) + "." + TwoDigits(h % 100)
  }

  /** The text for `bytes` once the unit is chosen: whole bytes, or two
      decimals in a larger unit. */
  function SizeText(bytes: int, unit: nat): string
    requires unit <= 4
  {
    if unit == 0 || bytes < 0 then IntToString(bytes) + " " + Units[0]
    else Fixed2(bytes, Pow1024(unit)) + " " + Units[unit]
  }

  /** `format_traffic_size(bytes_count)`. */
  method FormatTrafficSize(bytes: int) returns (text: string)
    ensures bytes == 0 ==> text == "0 B"
    ensures bytes != 0 ==> text == SizeText(bytes, UnitFor(bytes))
  {
    if bytes == 0 {
      return "0 B";
    }
    var unit: nat := 0;
    var scale: nat := 1;
    while bytes >= scale * 1024 && unit < |Units| - 1
      invariant unit <= 4 && scale == Pow1024(unit)
      invariant UnitFrom(bytes, unit) == UnitFor(bytes)
      decreases 4 - unit
    {
      scale := scale * 1024;
      unit := unit + 1;
    }
    text := SizeText(bytes, unit);
  }

  // ------------------------------------------------------------ duration

  datatype Duration = Secs(s: int) | Mins(m: int) | HoursMins(h: int, m: int) | DaysHours(d: int, h: int)

  /** The range `format_duration` picks and the whole units it shows. */
  function DurationParts(seconds: int): (r: Duration)
    ensures r.Secs? <==> seconds < 60
    ensures r.Secs? ==> r.s == seconds
    ensures r.Mins? ==> 60 <= seconds < 3600 && 60 * r.m <= seconds < 60 * r.m + 60
    ensures r.HoursMins? ==>
      3600 <= seconds < 86400 && 1 <= r.h < 24 && 0 <= r.m < 60
      && 3600 * r.h + 60 * r.m <= seconds < 3600 * r.h + 60 * r.m + 60
    ensures r.DaysHours? ==>
      seconds >= 86400 && r.d >= 1 && 0 <= r.h < 24
      && 86400 * r.d + 3600 * r.h <= seconds < 86400 * r.d + 3600 * r.h + 3600
  {
    if seconds < 60 then Secs(seconds)
    else if seconds < 3600 then Mins(seconds / 60)
    else if seconds < 86400 then HoursMins(seconds / 3600, seconds % 3600 / 60)
    else DaysHours(seconds / 86400, seconds % 86400 / 3600)
  }

  /** `format_duration(seconds)`. */
  function FormatDuration(seconds: int): string {
    match DurationParts(seconds)
    case Secs(s) => IntToString(s) + " сек"
    case Mins(m) => IntToString(m) + " мин"
    case HoursMins(h, m) => IntToString(h) + "ч " + IntToString(m) + "м"
    case DaysHours(d, h) => IntToString(d) + "д " + IntToString(h) + "ч"
  }

  // -------------------------------------------------------- small helpers

  /** `s[:n]` with Python's reading of a negative bound as counted from the
      end, clamped to the string. */
  function SliceTo(s: string, n: int): (r: string)
    ensures n >= 0 ==> r == s[..if n <= |s| then n else |s|]
    ensures n < 0 ==> r == s[..if |s| + n >= 0 then |s| + n else 0]
  {
    var end := if n < 0 then |s| + n else n;
    if end < 0 then [] else if end > |s| then s else s[..end]
  }

  /** `truncate_text(text, max_length)`. */
  function TruncateText(text: string, maxLength: int): (r: string)
    ensures |text| <= maxLength ==> r == text
    ensures |text| > maxLength ==> EndsWith(r, "...")
    ensures |text| > maxLength && maxLength >= 3 ==> |r| == maxLength && r[..maxLength - 3] == text[..maxLength - 3]
  {
    if |text| <= maxLength then text else SliceTo(text, maxLength - 3) + "..."
  }

  /** With a limit below three, the slice bound goes negative and counts
      from the end of the text, so the result can be longer than the
      limit. */
  lemma TruncateSmallLimit(text: string)
    requires |text| >= 3
    ensures TruncateText(text, 0) == text[..|text| - 3] + "..."
    ensures |TruncateText(text, 0)| == |text|
  {
  }

  /** `format_boolean(value, true_text, false_text)`. */
  function FormatBoolean(value: bool, trueText: string, falseText: string): (r: string)
    ensures value ==> r == trueText
    ensures !value ==> r == falseText
  {
    if value then trueText else falseText
  }

  /** `format_ip_with_mask(ip, mask)`; the bot's default mask is 32. */
  function FormatIpWithMask(ip: string, mask: int): string {
    ip + "/" + IntToString(mask)
  }

  /** The address and the mask can be read back by splitting at the first
      `/`, as long as the address has none. */
  lemma FormatIpWithMaskSplits(ip: string, mask: int)
    requires '/' !in ip
    ensures SplitFirst(FormatIpWithMask(ip, mask), "/") == Some((ip, IntToString(mask)))
    ensures ParseInt(IntToString(mask)) == Some(mask)
  {
    SplitFirstCons(ip, '/', IntToString(mask));
    ParseIntOfIntToString(mask);
  }

  // --------------------------------------------------- client card flags

  datatype Status = Blocked | Inactive | Active

  /** The status line of a client card: blocked wins over inactive. */
  function ClientStatus(c: Client): (r: Status)
    ensures r == Blocked <==> c.isBlocked
    ensures r == Inactive <==> !c.isBlocked && !c.isActive
    ensures r == Active <==> !c.isBlocked && c.isActive
  {
    if c.isBlocked then Blocked else if !c.isActive then Inactive else Active
  }

  /** Connected when interface statistics exist and are not empty. */
  function IsConnected(stats: Option<map<string, string>>): (r: bool)
    ensures r <==> stats.Some? && |stats.value| > 0
  {
    stats.Some? && |stats.value| > 0
  }

  datatype ExpiryView = NoExpiry | Until(at: int, expired: bool)

  /** The validity line: no date, or the date with an expiry mark. */
  function Expiry(expiresAt: Option<int>, now: int): (r: ExpiryView)
    ensures r.NoExpiry? <==> expiresAt.None?
    ensures r.Until? ==> r.at == expiresAt.value && (r.expired <==> r.at < now)
  {
    match expiresAt
    case None => NoExpiry
    case Some(at) => Until(at, at < now)
  }

  datatype LimitView = Unlimited | Quota(bytes: int, exceeded: bool) | Raises

  /** The quota line. A zero, NULL or empty-text limit reads as unlimited;
      a non-empty text limit makes the card raise (`float()` of a word, or
      comparing text with 0); the exceeded mark needs a positive limit that
      the usage has reached. */
  function LimitFlag(limit: Limit, used: int): (r: LimitView)
    ensures r.Unlimited? <==> limit.NoLimit? || limit == IntLimit(0) || limit == TextLimit("")
    ensures r.Raises? <==> limit.TextLimit? && limit.text != ""
    ensures r.Quota? ==> limit == IntLimit(r.bytes) && (r.exceeded <==> r.bytes > 0 && used >= r.bytes)
  {
    match limit
    case NoLimit => Unlimited
    case IntLimit(n) => if n == 0 then Unlimited else Quota(n, n > 0 && used >= n)
    case TextLimit(s) => if s == "" then Unlimited else Raises
  }

  /** For a positive limit the card's exceeded mark agrees with the quota
      query that the enforcement cycle uses. */
  lemma ExceededMatchesQuota(c: Client)
    requires c.trafficLimit.IntLimit? && c.trafficLimit.bytes > 0
    ensures LimitFlag(c.trafficLimit, c.trafficUsed).Quota?
    ensures LimitFlag(c.trafficLimit, c.trafficUsed).exceeded <==> QuotaReached(c)
  {
  }
}
