/** The IP geolocation client: a per-minute request budget kept in two
    fields, a lookup gated by it, a batch over the first five addresses,
    and the text that lists the results. Time is in seconds and passed in;
    each HTTP exchange is an input. */
module IpService {
  import opened Wrappers
  import opened PyText

  /** What one HTTP exchange with the geolocation API produced. A reply
      whose body is not JSON has `json == None`. */
  datatype Response = Http(status: int, json: Option<map<string, string>>) | Timeout | Failed

  datatype IpInfo = IpInfo(country: string, region: string, city: string, isp: string,
                           org: string, asn: string, ip: string)

  const Unknown: string := "Неизвестно"

  /** The seconds after a reset during which requests are counted. */
  const Window: int := 60

  /** The limiter's two fields: requests counted, and when the count next
      starts over. */
  datatype Limiter = Limiter(count: int, reset: int)

  /** The count stays between 0 and the budget (0 for a budget below 0). */
  predicate Within(l: Limiter, budget: int) {
    0 <= l.count && (l.count <= budget || l.count == 0)
  }

  /** `_check_rate_limit()` at `now`: a window that has run out starts over
      with a zero count; the call is allowed while the count is below the
      budget. */
  function CheckSpec(l: Limiter, now: int, budget: int): (r: (Limiter, bool))
    ensures now >= l.reset ==> r.0 == Limiter(0, now + Window)
    ensures now < l.reset ==> r.0 == l
    ensures r.1 <==> r.0.count < budget
  {
    var l' := if now >= l.reset then Limiter(0, now + Window) else l;
    (l', l'.count < budget)
  }

  function Get(m: map<string, string>, key: string, default: string): string {
    if key in m then m[key] else default
  }

  /** The record built from a successful reply, with the API's fields or
      their defaults. */
  function InfoOf(data: map<string, string>, ipAddress: string): IpInfo {
    IpInfo(Get(data, "country", Unknown), Get(data, "regionName", Unknown), Get(data, "city", Unknown),
           Get(data, "isp", Unknown), Get(data, "org", Unknown), Get(data, "as", Unknown),
           Get(data, "query", ipAddress))
  }

  /** One outcome of `get_ip_info`: the limiter afterwards, the record, and
      whether a request went out. */
  datatype Lookup = Lookup(limiter: Limiter, info: Option<IpInfo>, requested: bool)

  /** `get_ip_info(ip_address)`: refused without a request when the budget
      is spent; otherwise the request goes out, and a status-200 reply with
      a JSON body counts against the budget, giving a record iff its
      `status` is `success`. */
  function LookupSpec(l: Limiter, now: int, budget: int, ipAddress: string, response: Response): (r: Lookup)
  {
    var (checked, allowed) := CheckSpec(l, now, budget);
    if !allowed then Lookup(checked, None, false)
    else
      match response
      case Http(status, json) =>
        if status != 200 || json.None? then Lookup(checked, None, true)
        else
          var counted := checked.(count := checked.count + 1);
          if Get(json.value, "status", "") == "success" then Lookup(counted, Some(InfoOf(json.value, ipAddress)), true)
          else Lookup(counted, None, true)
      case _ => Lookup(checked, None, true)
  }

  /** A refused lookup makes no request and returns nothing; an allowed
      one counts exactly when the reply was a status-200 JSON body. */
  lemma LookupCounts(l: Limiter, now: int, budget: int, ipAddress: string, response: Response)
    ensures var r := LookupSpec(l, now, budget, ipAddress, response);
      var checked := CheckSpec(l, now, budget).0;
      (!CheckSpec(l, now, budget).1 ==> !r.requested && r.info.None? && r.limiter == checked)
      && (r.requested <==> CheckSpec(l, now, budget).1)
      && r.limiter.reset == checked.reset
      && r.limiter.count == checked.count
         + (if r.requested && response.Http? && response.status == 200 && response.json.Some? then 1 else 0)
      && (r.info.Some? ==> r.requested && response.Http? && response.status == 200)
  {
  }

  /** Used one lookup at a time, the count never passes the budget. */
  lemma LookupWithin(l: Limiter, now: int, budget: int, ipAddress: string, response: Response)
    requires Within(l, budget)
    ensures Within(LookupSpec(l, now, budget, ipAddress, response).limiter, budget)
  {
  }

  /** The batch's dictionary, in insertion order; a repeated key keeps its
      place and takes the new value. */
  function Put(d: seq<(string, IpInfo)>, key: string, value: IpInfo): (r: seq<(string, IpInfo)>)
    ensures forall i :: 0 <= i < |r| ==> (r[i].0 == key && r[i].1 == value) || r[i] in d
    ensures (key, value) in r
    ensures |r| <= |d| + 1
  {
    if d == [] then [(key, value)]
    else if d[0].0 == key then [(key, value)] + d[1..]
    else [d[0]] + Put(d[1..], key, value)
  }

  const BatchSize: nat := 5

  /** The state after `get_ip_info_batch` has handled addresses `i` onward;
      call `i` happens at `clock(i)` and receives `respond(i)`. */
  function BatchFrom(l: Limiter, budget: int, ips: seq<string>, i: nat,
                     clock: nat -> int, respond: nat -> Response,
                     acc: seq<(string, IpInfo)>): (r: (Limiter, seq<(string, IpInfo)>))
    requires i <= |ips|
    decreases |ips| - i
  {
    if i == |ips| then (l, acc)
    else
      var q := LookupSpec(l, clock(i), budget, ips[i], respond(i));
      var acc' := if q.info.Some? then Put(acc, ips[i], q.info.value) else acc;
      BatchFrom(q.limiter, budget, ips, i + 1, clock, respond, acc')
  }

  function FirstBatch(ips: seq<string>): (r: seq<string>)
    ensures |r| <= BatchSize && |r| <= |ips| && r == ips[..|r|]
  {
    if |ips| <= BatchSize then ips else ips[..BatchSize]
  }

  /** `get_ip_info_batch(ips)`. */
  function BatchSpec(l: Limiter, budget: int, ips: seq<string>,
                     clock: nat -> int, respond: nat -> Response): (Limiter, seq<(string, IpInfo)>)
  {
    BatchFrom(l, budget, FirstBatch(ips), 0, clock, respond, [])
  }

  lemma {:induction false} BatchFromKeys(l: Limiter, budget: int, ips: seq<string>, i: nat,
                                         clock: nat -> int, respond: nat -> Response,
                                         acc: seq<(string, IpInfo)>)
    requires i <= |ips|
    requires Within(l, budget)
    requires forall j :: 0 <= j < |acc| ==> acc[j].0 in ips
    ensures var r := BatchFrom(l, budget, ips, i, clock, respond, acc);
      Within(r.0, budget) && (forall j :: 0 <= j < |r.1| ==> r.1[j].0 in ips) && |r.1| <= |acc| + (|ips| - i)
    decreases |ips| - i
  {
    if i < |ips| {
      var q := LookupSpec(l, clock(i), budget, ips[i], respond(i));
      LookupWithin(l, clock(i), budget, ips[i], respond(i));
      var acc' := if q.info.Some? then Put(acc, ips[i], q.info.value) else acc;
      BatchFromKeys(q.limiter, budget, ips, i + 1, clock, respond, acc');
    }
  }

  /** The batch asks about at most the first five addresses, keeps only
      addresses from them, and leaves the budget respected. */
  lemma BatchKeys(l: Limiter, budget: int, ips: seq<string>, clock: nat -> int, respond: nat -> Response)
    requires Within(l, budget)
    ensures var r := BatchSpec(l, budget, ips, clock, respond);
      Within(r.0, budget) && |r.1| <= BatchSize
      && forall j :: 0 <= j < |r.1| ==> r.1[j].0 in ips[..if |ips| < BatchSize then |ips| else BatchSize]
  {
    BatchFromKeys(l, budget, FirstBatch(ips), 0, clock, respond, []);
  }

  class IpService {
    var requestCount: int
    var rateLimitReset: int
    var lastRequestTime: Option<int>
    const rateLimit: int

    function State(): Limiter
      reads this
    {
      Limiter(requestCount, rateLimitReset)
    }

    predicate Valid()
      reads this
    {
      Within(State(), rateLimit)
    }

    /** A new service: nothing counted, and the window starts over at the
        first check. */
    constructor (rateLimit: int, now: int)
      ensures this.rateLimit == rateLimit
      ensures State() == Limiter(0, now) && lastRequestTime.None?
      ensures Valid()
    {
      this.rateLimit := rateLimit;
      requestCount := 0;
      rateLimitReset := now;
      lastRequestTime := None;
    }

    /** `_check_rate_limit()`. */
    method CheckRateLimit(now: int) returns (allowed: bool)
      modifies this
      ensures (State(), allowed) == CheckSpec(old(State()), now, rateLimit)
      ensures lastRequestTime == old(lastRequestTime)
    {
      if now >= rateLimitReset {
        requestCount := 0;
        rateLimitReset := now + Window;
      }
      allowed := requestCount < rateLimit;
    }

    /** `_update_rate_limit()`. */
    method UpdateRateLimit(now: int)
      modifies this
      ensures requestCount == old(requestCount) + 1 && rateLimitReset == old(rateLimitReset)
      ensures lastRequestTime == Some(now)
    {
      requestCount := requestCount + 1;
      lastRequestTime := Some(now);
    }

    /** `get_ip_info(ip_address)` at `now`, with `response` for the HTTP
        exchange it makes if allowed. */
    method GetIpInfo(ipAddress: string, now: int, response: Response) returns (info: Option<IpInfo>, requested: bool)
      modifies this
      ensures LookupSpec(old(State()), now, rateLimit, ipAddress, response) == Lookup(State(), info, requested)
      ensures old(Valid()) ==> Valid()
    {
      var allowed := CheckRateLimit(now);
      if !allowed {
        return None, false;
      }
      requested := true;
      info := None;
      match response {
        case Http(status, json) =>
          if status == 200 && json.Some? {
            UpdateRateLimit(now);
            if Get(json.value, "status", "") == "success" {
              info := Some(InfoOf(json.value, ipAddress));
            }
          }
        case _ =>
      }
      if old(Valid()) {
        LookupWithin(old(State()), now, rateLimit, ipAddress, response);
      }
    }

    /** `get_ip_info_batch(ip_addresses)`. */
    method GetIpInfoBatch(ips: seq<string>, clock: nat -> int, respond: nat -> Response)
      returns (results: seq<(string, IpInfo)>)
      modifies this
      ensures (State(), results) == BatchSpec(old(State()), rateLimit, ips, clock, respond)
      ensures old(Valid()) ==> Valid()
    {
      var batch := FirstBatch(ips);
      results := [];
      var i := 0;
      ghost var start := State();
      while i < |batch|
        invariant i <= |batch|
        invariant BatchFrom(State(), rateLimit, batch, i, clock, respond, results)
               == BatchFrom(start, rateLimit, batch, 0, clock, respond, [])
        invariant Within(start, rateLimit) ==> Within(State(), rateLimit)
      {
        var info, _ := GetIpInfo(batch[i], clock(i), respond(i));
        if info.Some? {
          results := Put(results, batch[i], info.value);
        }
        i := i + 1;
      }
    }
  }

  // ------------------------------------------------------------- listing

  const NoInfo: string := "❌ Информация об IP недоступна"
  const Heading: string := "🌍 Геолокация IP подключений:\n\n"

  /** One numbered entry: the address, then country and city, then the
      provider. */
  function Entry(number: nat, ip: string, info: IpInfo): string {
    NatToString(number) + ". 🌐 " + ip + "\n"
    + "   📍 " + info.country + ", " + info.city + "\n"
    + "   🌐 " + info.isp + "\n\n"
  }

  /** The entries of `d`, numbered from `first` in insertion order. */
  function Entries(d: seq<(string, IpInfo)>, first: nat): string
    decreases |d|
  {
    if d == [] then "" else Entry(first, d[0].0, d[0].1) + Entries(d[1..], first + 1)
  }

  lemma {:induction false} EntriesSnoc(d: seq<(string, IpInfo)>, first: nat, x: (string, IpInfo))
    ensures Entries(d + [x], first) == Entries(d, first) + Entry(first + |d|, x.0, x.1)
    decreases |d|
  {
    if d == [] {
      assert [x][1..] == [];
    } else {
      assert (d + [x])[1..] == d[1..] + [x];
      EntriesSnoc(d[1..], first + 1, x);
    }
  }

  /** One more entry after the heading and the first `i` entries. */
  lemma EntriesStep(d: seq<(string, IpInfo)>, i: nat)
    requires i < |d|
    ensures Heading + Entries(d[..i + 1], 1) == (Heading + Entries(d[..i], 1)) + Entry(i + 1, d[i].0, d[i].1)
  {
    assert d[..i + 1] == d[..i] + [d[i]];
    EntriesSnoc(d[..i], 1, d[i]);
  }

  /** `format_multiple_ip_info(ip_info_dict)`. */
  method FormatMultipleIpInfo(d: seq<(string, IpInfo)>) returns (text: string)
    ensures d == [] ==> text == NoInfo
    ensures d != [] ==> text == Heading + Entries(d, 1)
  {
    if d == [] {
      return NoInfo;
    }
    text := Heading;
    var i := 0;
    while i < |d|
      invariant i <= |d|
      invariant text == Heading + Entries(d[..i], 1)
    {
      EntriesStep(d, i);
      text := text + Entry(i + 1, d[i].0, d[i].1);
      i := i + 1;
    }
    assert d[..i] == d;
  }
}
