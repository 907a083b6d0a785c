/** The pieces of the administrator's chat handlers that compute something:
    the client-name check, the expiry presets and custom expiry times, the
    traffic-limit choice and the client creation that uses it, page clamping
    for the client list, the unique-IP listing and the block toggle. Telegram
    messages and the conversation state are left to the callers; what a
    handler reads from them comes in as parameters. */
module AdminHandlers {
  import opened Wrappers
  import opened PyText
  import opened Store
  import SettingsService
  import Traffic
  import AwgManager
  import Enforcement

  // ---------------------------------------------------------------- names

  /** Why a typed name is refused. */
  datatype NameError = BadLength | BadChars | Taken

  predicate IsSeparator(c: char) { c == '-' || c == '_' || c == '.' }

  /** `s` with every `c` deleted. */
  function Without(s: string, c: char): string
  {
    if s == [] then []
    else (if s[0] == c then [] else [s[0]]) + Without(s[1..], c)
  }

  /** A character survives the deletion iff it is in `s` and is not `c`. */
  lemma {:induction false} WithoutMembers(s: string, c: char)
    ensures forall x :: x in Without(s, c) <==> x in s && x != c
  {
    if s != [] {
      WithoutMembers(s[1..], c);
      assert s == [s[0]] + s[1..];
    }
  }

  lemma {:induction false} WithoutAppend(a: string, b: string, c: char)
    ensures Without(a + b, c) == Without(a, c) + Without(b, c)
  {
    if a == [] {
      assert a + b == b;
    } else {
      assert (a + b)[0] == a[0] && (a + b)[1..] == a[1..] + b;
      WithoutAppend(a[1..], b, c);
    }
  }

  lemma {:induction false} WithoutAbsent(s: string, c: char)
    requires c !in s
    ensures Without(s, c) == s
  {
    if s != [] {
      WithoutAbsent(s[1..], c);
    }
  }

  /** Deleting a one-character text with `replace` deletes that character. */
  lemma {:induction false} ReplaceDeletes(s: string, c: char)
    ensures Replace(s, [c], "") == Without(s, c)
    decreases |s|
  {
    if c !in s {
      SplitOnNone(s, c);
      WithoutAbsent(s, c);
    } else {
      var x, rest := FirstOccurrence(s, c);
      ReplaceStep(x, c, rest);
      ReplaceDeletes(rest, c);
      WithoutAround(x, c, rest);
    }
  }

  lemma WithoutAround(x: string, c: char, rest: string)
    requires c !in x
    ensures Without(x + [c] + rest, c) == x + Without(rest, c)
  {
    var a := x + [c];
    WithoutAppend(a, rest, c);
    WithoutAppend(x, [c], c);
    WithoutAbsent(x, c);
    WithoutSelf(c);
    assert Without(a, c) == x + [] == x;
  }

  lemma WithoutSelf(c: char)
    ensures Without([c], c) == []
  {
    assert [c][1..] == [];
  }

  lemma {:induction false} FirstOccurrence(s: string, c: char) returns (x: string, rest: string)
    requires c in s
    ensures s == x + [c] + rest && c !in x
  {
    if s[0] == c {
      x, rest := [], s[1..];
    } else {
      var x', rest' := FirstOccurrence(s[1..], c);
      x, rest := [s[0]] + x', rest';
    }
  }

  lemma ReplaceStep(x: string, c: char, rest: string)
    requires c !in x
    ensures Replace(x + [c] + rest, [c], "") == x + Replace(rest, [c], "")
  {
    var s := x + [c] + rest;
    SplitOnCons(x, c, rest);
    var tail := SplitOn(rest, [c]);
    var parts := [x] + tail;
    assert SplitOn(s, [c]) == parts;
    assert parts[1..] == tail && parts[0] == x;
    assert Join(parts, "") == x + "" + Join(tail, "");
    assert x + "" == x;
  }

  /** `name.replace('-', '').replace('_', '').replace('.', '')`. */
  function Core(name: string): (r: string)
    ensures forall x :: x in r <==> x in name && !IsSeparator(x)
  {
    var r := Replace(Replace(Replace(name, "-", ""), "_", ""), ".", "");
    ReplaceDeletes(name, '-');
    ReplaceDeletes(Without(name, '-'), '_');
    ReplaceDeletes(Without(Without(name, '-'), '_'), '.');
    WithoutMembers(name, '-');
    WithoutMembers(Without(name, '-'), '_');
    WithoutMembers(Without(Without(name, '-'), '_'), '.');
    r
  }

  /** `str.isalnum()`, read over ASCII letters and digits. */
  predicate IsAlnumText(s: string) {
    s != [] && forall i :: 0 <= i < |s| ==> SettingsService.IsAsciiAlnum(s[i])
  }

  /** A name the handler accepts, described character by character: 2 to 32
      characters, each a letter, a digit or one of `-`, `_`, `.`, and at
      least one letter or digit. */
  predicate WellFormedName(name: string) {
    2 <= |name| <= 32
    && (forall i :: 0 <= i < |name| ==> SettingsService.IsAsciiAlnum(name[i]) || IsSeparator(name[i]))
    && (exists i :: 0 <= i < |name| && SettingsService.IsAsciiAlnum(name[i]))
  }

  lemma CoreIsAlnum(name: string)
    ensures IsAlnumText(Core(name)) <==>
      (forall i :: 0 <= i < |name| ==> SettingsService.IsAsciiAlnum(name[i]) || IsSeparator(name[i]))
      && (exists i :: 0 <= i < |name| && SettingsService.IsAsciiAlnum(name[i]))
  {
    var core := Core(name);
    if IsAlnumText(core) {
      forall i | 0 <= i < |name| ensures SettingsService.IsAsciiAlnum(name[i]) || IsSeparator(name[i]) {
        if !IsSeparator(name[i]) {
          assert name[i] in core;
        }
      }
      assert core[0] in name;
    }
    if (forall i :: 0 <= i < |name| ==> SettingsService.IsAsciiAlnum(name[i]) || IsSeparator(name[i]))
      && (exists i :: 0 <= i < |name| && SettingsService.IsAsciiAlnum(name[i])) {
      var i :| 0 <= i < |name| && SettingsService.IsAsciiAlnum(name[i]);
      assert name[i] in core;
      forall k | 0 <= k < |core| ensures SettingsService.IsAsciiAlnum(core[k]) {
        assert core[k] in name;
      }
    }
  }

  /** The name check of the add-client dialogue on the typed text: the
      stripped text is accepted iff it is well formed and no client has that
      name; a bad length is reported before bad characters, and those before
      a taken name. */
  function CheckName(t: Tables, text: string): (r: Result<string, NameError>)
    ensures r.Ok? <==> WellFormedName(Strip(text)) && !NameTaken(t.clients, Strip(text))
    ensures r.Ok? ==> r.value == Strip(text)
    ensures r == Err(BadLength) <==> !(2 <= |Strip(text)| <= 32)
    ensures r == Err(Taken) ==> WellFormedName(Strip(text)) && NameTaken(t.clients, Strip(text))
  {
    var name := Strip(text);
    if name == [] || |name| < 2 || |name| > 32 then Err(BadLength)
    else
      CoreIsAlnum(name);
      if !IsAlnumText(Core(name)) then Err(BadChars)
      else if GetClientByName(t, name).Some? then Err(Taken)
      else Ok(name)
  }

  /** An accepted name carries no surrounding whitespace. */
  lemma AcceptedNameStripped(t: Tables, text: string)
    requires CheckName(t, text).Ok?
    ensures Strip(CheckName(t, text).value) == CheckName(t, text).value
  {
    var name := Strip(text);
    StripUnchanged(name);
  }

  // --------------------------------------------------------------- expiry

  /** The periods an expiry is counted in. */
  datatype Period = Hours | Days | Weeks | Months | Years

  /** A period in seconds; a month counts as 30 days and a year as 365. */
  function Seconds(p: Period): nat {
    match p
    case Hours => 3600
    case Days => 86400
    case Weeks => 7 * 86400
    case Months => 30 * 86400
    case Years => 365 * 86400
  }

  /** The preset suffixes `h`, `d`, `w`, `m`, `y`. */
  function SuffixPeriod(c: char): (r: Option<Period>)
    ensures r.Some? ==> PeriodSuffix(r.value) == c
  {
    if c == 'h' then Some(Hours)
    else if c == 'd' then Some(Days)
    else if c == 'w' then Some(Weeks)
    else if c == 'm' then Some(Months)
    else if c == 'y' then Some(Years)
    else None
  }

  function PeriodSuffix(p: Period): char {
    match p
    case Hours => 'h'
    case Days => 'd'
    case Weeks => 'w'
    case Months => 'm'
    case Years => 'y'
  }

  /** The custom units `hours`, `days`, `weeks`, `months`, `years`. */
  function UnitPeriod(unit: string): (r: Option<Period>)
    ensures r.Some? ==> PeriodUnit(r.value) == unit
  {
    if unit == "hours" then Some(Hours)
    else if unit == "days" then Some(Days)
    else if unit == "weeks" then Some(Weeks)
    else if unit == "months" then Some(Months)
    else if unit == "years" then Some(Years)
    else None
  }

  function PeriodUnit(p: Period): string {
    match p
    case Hours => "hours"
    case Days => "days"
    case Weeks => "weeks"
    case Months => "months"
    case Years => "years"
  }

  /** What choosing an expiry button leads to: the unit question for
      `custom`, otherwise the expiry to store (None: no expiry). */
  datatype TimeChoice = AskUnit | ExpiresAt(at: Option<int>)

  /** `process_time_limit` on the token after `time_limit:` at time `now`.
      None when `int()` refuses the number before a known suffix (the error
      leaves the handler). An unknown suffix, like `unlimited`, stores no
      expiry. */
  function PresetExpiry(token: string, now: int): (r: Option<TimeChoice>)
    ensures r == Some(AskUnit) <==> token == "custom"
    ensures token == "unlimited" ==> r == Some(ExpiresAt(None))
    ensures r.None? ==>
      token != [] && SuffixPeriod(token[|token| - 1]).Some? && ParseInt(token[..|token| - 1]).None?
    ensures token != "custom" && token != "unlimited" && token != [] && SuffixPeriod(token[|token| - 1]).None?
      ==> r == Some(ExpiresAt(None))
  {
    if token == "custom" then Some(AskUnit)
    else if token == "unlimited" || token == [] then Some(ExpiresAt(None))
    else PeriodExpiry(token, now)
  }

  /** A token other than `custom` and `unlimited`: `<n><suffix>`, or no
      expiry for an unknown suffix. */
  function PeriodExpiry(token: string, now: int): (r: Option<TimeChoice>)
    requires token != []
  {
    match SuffixPeriod(token[|token| - 1])
    case None => Some(ExpiresAt(None))
    case Some(p) =>
      match ParseInt(token[..|token| - 1])
      case None => None
      case Some(n) => Some(ExpiresAt(Some(now + n * Seconds(p))))
  }

  /** The preset `<n><suffix>` expires `n` periods after `now`. */
  lemma PresetOfPeriod(n: int, p: Period, now: int)
    ensures PresetExpiry(IntToString(n) + [PeriodSuffix(p)], now) == Some(ExpiresAt(Some(now + n * Seconds(p))))
  {
    var s := IntToString(n);
    assert IsDigit(s[0]) || s[0] == '-' by {
      if n < 0 { assert s[0] == '-'; } else { assert AllDigits(s); }
    }
    ParseIntOfIntToString(n);
    PresetOfNumber(s, n, p, now);
  }

  /** A token that starts like a number and ends in a suffix: the number
      before the suffix counts that many periods. */
  lemma PresetOfNumber(s: string, n: int, p: Period, now: int)
    requires s != [] && (IsDigit(s[0]) || s[0] == '-') && ParseInt(s) == Some(n)
    ensures PresetExpiry(s + [PeriodSuffix(p)], now) == Some(ExpiresAt(Some(now + n * Seconds(p))))
  {
    var token := s + [PeriodSuffix(p)];
    NumberIsNoWord(s, token);
    assert PresetExpiry(token, now) == PeriodExpiry(token, now);
    PeriodOfNumber(s, n, p, now);
  }

  lemma PeriodOfNumber(s: string, n: int, p: Period, now: int)
    requires ParseInt(s) == Some(n)
    ensures PeriodExpiry(s + [PeriodSuffix(p)], now) == Some(ExpiresAt(Some(now + n * Seconds(p))))
  {
    var token := s + [PeriodSuffix(p)];
    assert token[..|token| - 1] == s;
    SuffixOfPeriod(p);
  }

  lemma SuffixOfPeriod(p: Period)
    ensures SuffixPeriod(PeriodSuffix(p)) == Some(p)
  {
  }

  /** `process_custom_time_value` on the typed text with the unit chosen
      earlier (None when none was recorded, which counts as days). The outer
      None is the refusal: the text is not an integer in 1..1000. An unknown
      unit stores no expiry. */
  function CustomExpiry(text: string, unit: Option<string>, now: int): (r: Option<Option<int>>)
    ensures r.Some? <==> ParseInt(text).Some? && 1 <= ParseInt(text).value <= 1000
    ensures r.Some? && r.value.Some? ==> now + 3600 <= r.value.value <= now + 1000 * 365 * 86400
    ensures r.Some? && unit.None? ==> r.value == Some(now + ParseInt(text).value * 86400)
  {
    match ParseInt(text)
    case None => None
    case Some(value) =>
      if value <= 0 || value > 1000 then None
      else
        var u := if unit.Some? then unit.value else "days";
        match UnitPeriod(u)
        case None => Some(None)
        case Some(p) =>
          PeriodBounds(value, p);
          Some(Some(now + value * Seconds(p)))
  }

  lemma PeriodBounds(value: int, p: Period)
    requires 1 <= value <= 1000
    ensures 3600 <= value * Seconds(p) <= 1000 * 365 * 86400
  {
  }

  /** A token that starts like a number is neither `custom` nor `unlimited`. */
  lemma NumberIsNoWord(s: string, token: string)
    requires s != [] && (IsDigit(s[0]) || s[0] == '-') && StartsWith(token, s)
    ensures token != "custom" && token != "unlimited"
  {
    assert token[0] == s[0];
  }

  /** A custom time of `n` units ends where the preset `<n><suffix>` of the
      same period ends. */
  lemma CustomMatchesPreset(n: int, p: Period, now: int)
    requires 1 <= n <= 1000
    ensures CustomExpiry(IntToString(n), Some(PeriodUnit(p)), now)
      == Some(PresetExpiry(IntToString(n) + [PeriodSuffix(p)], now).value.at)
  {
    PresetOfPeriod(n, p, now);
    ParseIntOfIntToString(n);
  }

  // -------------------------------------------------------- traffic limit

  const GiB: nat := 1024 * 1024 * 1024

  /** The limit handed to the new client as the handler is written: the raw
      token after `traffic_limit:`, once `int()` has accepted it (None: it
      refused, and the error leaves the handler). The byte count computed
      beside it is never used. */
  function CreationLimitAsWritten(token: string): (r: Option<Limit>)
    ensures r.Some? ==> r.value == TextLimit(token)
    ensures r.Some? <==> token == "unlimited" || ParseInt(token).Some?
  {
    if token == "unlimited" then Some(TextLimit(token))
    else if ParseInt(token).None? then None
    else Some(TextLimit(token))
  }

  /** The limit the handler evidently means to store: no limit for
      `unlimited`, and `n` GiB for the number `n`. */
  function CreationLimit(token: string): (r: Option<Limit>)
    ensures r.Some? <==> token == "unlimited" || ParseInt(token).Some?
    ensures token == "unlimited" ==> r == Some(NoLimit)
    ensures token != "unlimited" && r.Some? ==> r.value == IntLimit(ParseInt(token).value * GiB)
  {
    if token == "unlimited" then Some(NoLimit)
    else
      match ParseInt(token)
      case None => None
      case Some(gb) => Some(IntLimit(gb * GiB))
  }

  /** As written, choosing `n` GB stores a limit of `n` bytes: the column's
      INTEGER affinity turns the text `"5"` into the integer 5. */
  lemma RawTokenStoredAsBytes(n: int)
    requires n >= 1
    ensures IntegerAffinity(CreationLimitAsWritten(IntToString(n)).value) == IntLimit(n)
    ensures CreationLimit(IntToString(n)) == Some(IntLimit(n * GiB)) && n != n * GiB
  {
    ParseIntOfIntToString(n);
    AffinityOfDecimalText(n);
    assert IntToString(n) != "unlimited" by { assert AllDigits(IntToString(n)); assert !IsDigit('u'); }
  }

  /** The 5 GB button, as written: a client that has used 5 bytes is
      already over its quota. */
  lemma FiveGbBlocksAtFiveBytes(c: Client)
    requires c.trafficLimit == IntegerAffinity(CreationLimitAsWritten("5").value)
    requires c.trafficUsed == 5 && c.isActive && !c.isBlocked
    ensures Enforcement.ShouldBlock(c)
  {
    assert IntToString(5) == "5";
    RawTokenStoredAsBytes(5);
    assert c.trafficLimit == IntLimit(5);
  }

  /** With the intended limit, a client created with `n` GB is over quota
      exactly when it has used `n` GiB. */
  lemma CreationLimitQuota(n: int, c: Client)
    requires n >= 1 && c.isActive && !c.isBlocked
    requires c.trafficLimit == IntegerAffinity(CreationLimit(IntToString(n)).value)
    ensures Enforcement.ShouldBlock(c) <==> c.trafficUsed >= n * GiB
  {
    RawTokenStoredAsBytes(n);
  }

  // ------------------------------------------------------ client creation

  /** What the add-client dialogue has gathered before the traffic choice. */
  datatype Draft = Draft(name: string, endpoint: string, expiresAt: Option<int>)

  /** A freshly generated key triple. */
  datatype KeyTriple = KeyTriple(privateKey: string, publicKey: string, presharedKey: string)

  /** How `process_traffic_limit` ends. */
  datatype Creation =
    | BadNumber                               // `int()` refused the token
    | NoAddress                               // no free address in the subnet
    | StoreRefused                            // `add_client` raised
    | PeerRefused(commands: seq<AwgManager.Command>)
    | Created(id: int, commands: seq<AwgManager.Command>)
    | Raised                                  // an exception caught by the handler's `except`

  /** The client record the handler builds, with the limit it means to
      store. */
  function DraftClient(d: Draft, keys: KeyTriple, ip: string, limit: Limit): Client {
    NewClient(d.name, keys.publicKey, keys.privateKey, keys.presharedKey, ip, d.endpoint, d.expiresAt, limit)
  }

  /** `process_traffic_limit`: the limit, the lowest free address, the row,
      then the peer on the server; a peer the server refuses is deleted from
      the store again. */
  function CreateClientSpec(t: Tables, d: Draft, token: string, keys: KeyTriple, subnet: string,
                            serverIp: string, iface: string, run: AwgManager.Command -> AwgManager.Exit, now: int): (r: (Tables, Creation))
    requires ValidTables(t)
    ensures ValidTables(r.0)
  {
    match CreationLimit(token)
    case None => (t, BadNumber)
    case Some(limit) =>
      match AwgManager.NextAvailableIp(t, subnet, serverIp)
      case None => (t, NoAddress)
      case Some(ip) =>
        var c := DraftClient(d, keys, ip, limit);
        AddClientSpecValid(t, c, now);
        var (t1, added) := AddClientSpec(t, c, now);
        if added.Err? then (t, StoreRefused)
        else
          var peer := AwgManager.AddPeerToServer(iface, c.(id := Some(added.value)), run);
          if peer.ok then (t1, Created(added.value, peer.commands))
          else
            DeleteClientSpecCorrect(t1, added.value);
            (DeleteClientSpec(t1, added.value).0, PeerRefused(peer.commands))
  }

  /** `process_traffic_limit` as written. `int()` checks the token first;
      inside the `try`, a requested IPv6 address (`has_ipv6` with IPv6
      enabled) calls the undefined `get_next_available_ipv6`, and otherwise
      a free address leads to `Client(...)` with the keywords
      `ipv6_address` and `has_ipv6`, which the dataclass does not declare.
      Either raises, and the `except` answers with an error message. */
  function CreateClientAsWritten(t: Tables, token: string, subnet: string, serverIp: string, wantsIpv6: bool): (r: (Tables, Creation))
    requires ValidTables(t)
  {
    if CreationLimitAsWritten(token).None? then (t, BadNumber)
    else if wantsIpv6 then (t, Raised)
    else match AwgManager.NextAvailableIp(t, subnet, serverIp)
      case None => (t, NoAddress)
      case Some(_) => (t, Raised)
  }

  /** As written, no input creates a client: the store is never changed,
      and whenever the intended handler stores a client, the written one
      raises instead. */
  lemma CreationAsWrittenNeverStores(t: Tables, d: Draft, token: string, keys: KeyTriple, subnet: string,
                                     serverIp: string, iface: string, run: AwgManager.Command -> AwgManager.Exit, now: int, wantsIpv6: bool)
    requires ValidTables(t)
    ensures CreateClientAsWritten(t, token, subnet, serverIp, wantsIpv6).0 == t
    ensures !CreateClientAsWritten(t, token, subnet, serverIp, wantsIpv6).1.Created?
    ensures CreateClientSpec(t, d, token, keys, subnet, serverIp, iface, run, now).1.Created? ==>
      CreateClientAsWritten(t, token, subnet, serverIp, wantsIpv6).1 == Raised
  {
    if CreateClientSpec(t, d, token, keys, subnet, serverIp, iface, run, now).1.Created? {
      assert CreationLimit(token).Some?;
      assert CreationLimitAsWritten(token).Some?;
    }
  }

  /** The row a successful creation stores under `id`. */
  function CreatedRow(t: Tables, d: Draft, token: string, keys: KeyTriple, subnet: string,
                      serverIp: string, now: int, id: int): Client
    requires CreationLimit(token).Some? && AwgManager.NextAvailableIp(t, subnet, serverIp).Some?
  {
    Client(Some(id), d.name, keys.publicKey, keys.privateKey, keys.presharedKey,
           AwgManager.NextAvailableIp(t, subnet, serverIp).value, d.endpoint, Some(now),
           d.expiresAt, CreationLimit(token).value, 0, true, false, "", "")
  }

  /** A created client is stored under an id no row had, with the
      dialogue's name, endpoint and expiry, the generated keys, the lowest
      free address, the intended limit, no traffic, active and unblocked; no
      other row changes, and the peer addition was the first command run. */
  lemma CreateClientCreated(t: Tables, d: Draft, token: string, keys: KeyTriple, subnet: string,
                            serverIp: string, iface: string, run: AwgManager.Command -> AwgManager.Exit, now: int)
    requires ValidTables(t)
    requires CreateClientSpec(t, d, token, keys, subnet, serverIp, iface, run, now).1.Created?
    ensures var (t', out) := CreateClientSpec(t, d, token, keys, subnet, serverIp, iface, run, now);
      CreationLimit(token).Some? && AwgManager.NextAvailableIp(t, subnet, serverIp).Some?
      && GetClient(t, out.id).None?
      && GetClient(t', out.id) == Some(CreatedRow(t, d, token, keys, subnet, serverIp, now, out.id))
      && (forall other :: other != out.id ==> GetClient(t', other) == GetClient(t, other))
      && |out.commands| >= 1
      && out.commands[0] == AwgManager.AddCommand(iface, CreatedRow(t, d, token, keys, subnet, serverIp, now, out.id))
  {
    var limit, ip := CreationLimit(token).value, AwgManager.NextAvailableIp(t, subnet, serverIp).value;
    var c := DraftClient(d, keys, ip, limit);
    var (t1, added) := AddClientSpec(t, c, now);
    assert added.Ok?;
    var id := added.value;
    var peer := AwgManager.AddPeerToServer(iface, c.(id := Some(id)), run);
    assert peer.ok;
    assert CreateClientSpec(t, d, token, keys, subnet, serverIp, iface, run, now) == (t1, Created(id, peer.commands));
    AddClientSpecInserts(t, c, now);
    assert IntegerAffinity(limit) == limit;
    assert Inserted(c, id, now) == CreatedRow(t, d, token, keys, subnet, serverIp, now, id);
  }

  /** A creation that fails adds no client row and changes none. */
  lemma CreateClientFailed(t: Tables, d: Draft, token: string, keys: KeyTriple, subnet: string,
                           serverIp: string, iface: string, run: AwgManager.Command -> AwgManager.Exit, now: int)
    requires ValidTables(t)
    requires !CreateClientSpec(t, d, token, keys, subnet, serverIp, iface, run, now).1.Created?
    ensures CreateClientSpec(t, d, token, keys, subnet, serverIp, iface, run, now).0.clients == t.clients
  {
    if CreationLimit(token).Some? && AwgManager.NextAvailableIp(t, subnet, serverIp).Some? {
      var limit, ip := CreationLimit(token).value, AwgManager.NextAvailableIp(t, subnet, serverIp).value;
      var c := DraftClient(d, keys, ip, limit);
      var (t1, added) := AddClientSpec(t, c, now);
      if added.Ok? {
        var peer := AwgManager.AddPeerToServer(iface, c.(id := Some(added.value)), run);
        assert CreateClientSpec(t, d, token, keys, subnet, serverIp, iface, run, now).0 == DeleteClientSpec(t1, added.value).0;
        RemoveNewRow(t, Inserted(c, added.value, now));
      }
    }
  }

  /** Deleting the row just appended gives the client rows back. */
  lemma RemoveNewRow(t: Tables, row: Client)
    requires ValidTables(t) && row.id == Some(t.nextId)
    ensures var t1 := t.(clients := t.clients + [row], nextId := t.nextId + 1);
      DeleteClientSpec(t1, t.nextId).0.clients == t.clients
  {
    forall i | 0 <= i < |t.clients| ensures t.clients[i].id != Some(t.nextId) {
      assert WellStored(t.clients[i], t.nextId);
    }
    FilterAllButLast(t.clients, row, NotClient(t.nextId));
  }

  lemma {:induction false} FilterAllButLast(s: seq<Client>, x: Client, p: Client -> bool)
    requires forall i :: 0 <= i < |s| ==> p(s[i])
    requires !p(x)
    ensures Lists.Filter(s + [x], p) == s
  {
    if s == [] {
      assert Lists.Filter([x], p) == Lists.Filter([x][1..], p);
    } else {
      assert (s + [x])[1..] == s[1..] + [x];
      FilterAllButLast(s[1..], x, p);
    }
  }

  /** `process_traffic_limit` against the store. */
  method ProcessTrafficLimit(db: Database, d: Draft, token: string, keys: KeyTriple, subnet: string,
                             serverIp: string, iface: string, run: AwgManager.Command -> AwgManager.Exit, now: int)
    returns (out: Creation)
    requires db.Valid()
    modifies db
    ensures db.Valid()
    ensures (db.State(), out) == CreateClientSpec(old(db.State()), d, token, keys, subnet, serverIp, iface, run, now)
  {
    var limit := CreationLimit(token);
    if limit.None? {
      return BadNumber;
    }
    var ip := AwgManager.GetNextAvailableIp(db, subnet, serverIp);
    if ip.None? {
      return NoAddress;
    }
    var c := DraftClient(d, keys, ip.value, limit.value);
    var added := db.AddClient(c, now);
    if added.Err? {
      return StoreRefused;
    }
    var peer := AwgManager.AddPeerToServer(iface, c.(id := Some(added.value)), run);
    if peer.ok {
      return Created(added.value, peer.commands);
    }
    var _ := db.DeleteClient(added.value);
    return PeerRefused(peer.commands);
  }

  // ---------------------------------------------------------------- pages

  const PerPage := 10

  /** `(n - 1) // 10 + 1` pages for `n` clients. */
  function TotalPages(n: nat): (r: nat)
    requires n >= 1
    ensures (r - 1) * PerPage < n <= r * PerPage
  {
    (n - 1) / PerPage + 1
  }

  /** The page `show_clients_list` displays when `page` is asked for and
      there are `n >= 1` clients: a page below 0 becomes the first, one at or
      past the end the last; a page in range is kept. Every page it yields
      holds at least one client. */
  function ClampPage(page: int, n: nat): (r: nat)
    requires n >= 1
    ensures r < TotalPages(n) && r * PerPage < n
    ensures 0 <= page < TotalPages(n) ==> r == page
    ensures page < 0 ==> r == 0
    ensures page >= TotalPages(n) ==> r == TotalPages(n) - 1
  {
    if page < 0 then 0
    else if page >= TotalPages(n) then TotalPages(n) - 1
    else page
  }

  // ------------------------------------------------------------ unique IPs

  /** The address `show_client_ip_info` treats as the current connection:
      the host part of a non-empty `endpoint` field, or "" for none. The
      host part is the text before the first `:`, or the whole field when it
      has none. */
  function CurrentEndpoint(peerStats: map<string, string>): (r: string)
    ensures r != "" ==> "endpoint" in peerStats && StartsWith(peerStats["endpoint"], r) && !Contains(r, ":")
    ensures ("endpoint" !in peerStats || peerStats["endpoint"] == "") ==> r == ""
    ensures "endpoint" in peerStats && peerStats["endpoint"] != "" ==>
      !Contains(r, ":") && (r == peerStats["endpoint"] || StartsWith(peerStats["endpoint"], r + ":"))
  {
    if "endpoint" in peerStats && peerStats["endpoint"] != "" then
      var e := peerStats["endpoint"];
      var parts := SplitOn(e, ":");
      assert |parts| > 1 ==> StartsWith(e, parts[0] + ":") by {
        if |parts| > 1 {
          assert e == parts[0] + ":" + Join(parts[1..], ":");
        }
      }
      AwgManager.HostPart(e)
    else ""
  }

  /** The entry is left out: it is the current address. */
  predicate Skipped(current: string, ip: string) { current != "" && ip == current }

  function IpsOf(u: seq<DailyIp>): set<string> {
    set i | 0 <= i < |u| :: u[i].ipAddress
  }

  /** The list the handler builds from today's connections: each address
      once, at its first connection, the current address left out. */
  function UniqueIps(cs: seq<DailyIp>, current: string): seq<DailyIp>
  {
    if cs == [] then []
    else
      var u := UniqueIps(cs[..|cs| - 1], current);
      var c := cs[|cs| - 1];
      if Skipped(current, c.ipAddress) || c.ipAddress in IpsOf(u) then u else u + [c]
  }

  /** The position of the first connection from `ip`, or -1. */
  function FirstFrom(cs: seq<DailyIp>, ip: string): (r: int)
    ensures -1 <= r < |cs|
    ensures r >= 0 ==> cs[r].ipAddress == ip && forall j :: 0 <= j < r ==> cs[j].ipAddress != ip
    ensures r < 0 <==> forall j :: 0 <= j < |cs| ==> cs[j].ipAddress != ip
  {
    if cs == [] then -1
    else
      var k := FirstFrom(cs[..|cs| - 1], ip);
      if k >= 0 then k
      else if cs[|cs| - 1].ipAddress == ip then |cs| - 1
      else -1
  }

  /** `u` holds exactly the addresses of `cs` other than the current one,
      each once, each as its first connection, in the order of those first
      connections. */
  predicate Listing(cs: seq<DailyIp>, current: string, u: seq<DailyIp>) {
    (forall k :: 0 <= k < |u| ==> !Skipped(current, u[k].ipAddress))
    && (forall k :: 0 <= k < |u| ==> FirstFrom(cs, u[k].ipAddress) >= 0 && cs[FirstFrom(cs, u[k].ipAddress)] == u[k])
    && (forall k1, k2 :: 0 <= k1 < k2 < |u| ==> FirstFrom(cs, u[k1].ipAddress) < FirstFrom(cs, u[k2].ipAddress))
    && (forall j :: 0 <= j < |cs| && !Skipped(current, cs[j].ipAddress) ==> cs[j].ipAddress in IpsOf(u))
  }

  lemma {:induction false} UniqueIpsCorrect(cs: seq<DailyIp>, current: string)
    ensures Listing(cs, current, UniqueIps(cs, current))
  {
    if cs != [] {
      var p, c := cs[..|cs| - 1], cs[|cs| - 1];
      assert cs == p + [c];
      UniqueIpsCorrect(p, current);
      var u := UniqueIps(p, current);
      if Skipped(current, c.ipAddress) || c.ipAddress in IpsOf(u) {
        ListingKeep(p, c, current, u);
      } else {
        ListingAdd(p, c, current, u);
      }
    }
  }

  /** One more connection leaves the first connection from every address
      already seen where it was. */
  lemma FirstFromSnoc(p: seq<DailyIp>, c: DailyIp, ip: string)
    ensures FirstFrom(p + [c], ip) ==
      if FirstFrom(p, ip) >= 0 then FirstFrom(p, ip) else if c.ipAddress == ip then |p| else -1
  {
    assert (p + [c])[..|p|] == p;
  }

  /** A connection whose address is skipped or already listed adds nothing. */
  lemma ListingKeep(p: seq<DailyIp>, c: DailyIp, current: string, u: seq<DailyIp>)
    requires Listing(p, current, u)
    requires Skipped(current, c.ipAddress) || c.ipAddress in IpsOf(u)
    ensures Listing(p + [c], current, u)
  {
    var cs := p + [c];
    forall k | 0 <= k < |u| ensures FirstFrom(cs, u[k].ipAddress) == FirstFrom(p, u[k].ipAddress) {
      FirstFromSnoc(p, c, u[k].ipAddress);
    }
    forall j | 0 <= j < |cs| && !Skipped(current, cs[j].ipAddress) ensures cs[j].ipAddress in IpsOf(u) {
      if j < |p| {
        assert cs[j] == p[j];
      }
    }
  }

  /** A connection from a new address that is not skipped is listed last. */
  lemma ListingAdd(p: seq<DailyIp>, c: DailyIp, current: string, u: seq<DailyIp>)
    requires Listing(p, current, u)
    requires !Skipped(current, c.ipAddress) && c.ipAddress !in IpsOf(u)
    ensures Listing(p + [c], current, u + [c])
  {
    var cs, v := p + [c], u + [c];
    forall j | 0 <= j < |p| ensures p[j].ipAddress != c.ipAddress {
      assert p[j].ipAddress in IpsOf(u) || Skipped(current, p[j].ipAddress);
    }
    assert FirstFrom(p, c.ipAddress) < 0;
    FirstFromSnoc(p, c, c.ipAddress);
    forall k | 0 <= k < |u| ensures FirstFrom(cs, u[k].ipAddress) == FirstFrom(p, u[k].ipAddress) {
      FirstFromSnoc(p, c, u[k].ipAddress);
    }
    IpsOfSnoc(u, c);
    forall k | 0 <= k < |v| ensures FirstFrom(cs, v[k].ipAddress) >= 0 && cs[FirstFrom(cs, v[k].ipAddress)] == v[k] {
      if k < |u| {
        assert v[k] == u[k];
      }
    }
    forall j | 0 <= j < |cs| && !Skipped(current, cs[j].ipAddress) ensures cs[j].ipAddress in IpsOf(v) {
      if j < |p| {
        assert cs[j] == p[j];
      }
    }
    forall k1, k2 | 0 <= k1 < k2 < |v| ensures FirstFrom(cs, v[k1].ipAddress) < FirstFrom(cs, v[k2].ipAddress) {
      assert v[k1] == u[k1];
      if k2 < |u| {
        assert v[k2] == u[k2];
      }
    }
  }

  lemma IpsOfSnoc(u: seq<DailyIp>, c: DailyIp)
    ensures IpsOf(u + [c]) == IpsOf(u) + {c.ipAddress}
  {
    assert (u + [c])[|u|] == c;
    forall x | x in IpsOf(u) ensures x in IpsOf(u + [c]) {
      var i :| 0 <= i < |u| && u[i].ipAddress == x;
      assert (u + [c])[i] == u[i];
    }
  }

  /** The loop of `show_client_ip_info` over today's connections (most
      recent first), with the set of addresses already listed. */
  method ListUniqueIps(cs: seq<DailyIp>, current: string) returns (unique: seq<DailyIp>)
    ensures unique == UniqueIps(cs, current)
    ensures forall k :: 0 <= k < |unique| ==> !Skipped(current, unique[k].ipAddress)
    ensures forall k1, k2 :: 0 <= k1 < k2 < |unique| ==> unique[k1].ipAddress != unique[k2].ipAddress
    ensures forall j :: 0 <= j < |cs| && !Skipped(current, cs[j].ipAddress) ==> cs[j].ipAddress in IpsOf(unique)
  {
    unique := [];
    var seen: set<string> := {};
    for i := 0 to |cs|
      invariant unique == UniqueIps(cs[..i], current)
      invariant seen == IpsOf(unique)
    {
      assert cs[..i + 1][..i] == cs[..i];
      var ip := cs[i].ipAddress;
      if (current != "" && ip == current) || ip in seen {
        continue;
      }
      IpsOfSnoc(unique, cs[i]);
      seen := seen + {ip};
      unique := unique + [cs[i]];
    }
    assert cs[..|cs|] == cs;
    UniqueIpsCorrect(cs, current);
    forall k1, k2 | 0 <= k1 < k2 < |unique| ensures unique[k1].ipAddress != unique[k2].ipAddress {
      assert FirstFrom(cs, unique[k1].ipAddress) < FirstFrom(cs, unique[k2].ipAddress);
    }
  }

  const ShownIps := 7

  /** The entries printed: the first seven. */
  function Shown(unique: seq<DailyIp>): (r: seq<DailyIp>)
    ensures |r| <= ShownIps && |r| <= |unique| && r == unique[..|r|]
    ensures |unique| <= ShownIps ==> r == unique
  {
    if |unique| <= ShownIps then unique else unique[..ShownIps]
  }

  /** The count in the "and N more" line, reported only when positive: the
      entries printed and the ones reported add up to the whole list. */
  function Remaining(unique: seq<DailyIp>): (r: Option<nat>)
    ensures r.Some? <==> |unique| > ShownIps
    ensures r.Some? ==> r.value > 0 && |Shown(unique)| + r.value == |unique|
  {
    if |unique| - ShownIps > 0 then Some(|unique| - ShownIps) else None
  }

  // --------------------------------------------------------- block toggle

  /** How `toggle_client_block` ends. */
  datatype Toggle =
    | NotFound
    | Toggled(blocked: bool, commands: seq<AwgManager.Command>)
    | Refused(commands: seq<AwgManager.Command>)

  /** What the handler's closing `get_interface_stats()` call reads: the
      plain and the sudo `awg show` run, the day and the time. */
  datatype Refresh = Refresh(plain: AwgManager.Completed, sudo: AwgManager.Completed, today: string, now: int)

  /** `toggle_client_block(id)`: flip the flag; a client now blocked is
      removed from the server, one now unblocked is added back; only when
      that succeeded is the row written and the interface stats read again,
      which tracks every connected peer against the store. */
  function ToggleBlockSpec(t: Tables, id: int, iface: string, run: AwgManager.Command -> AwgManager.Exit, refresh: Refresh): (r: (Tables, Toggle))
    requires ValidTables(t)
    ensures ValidTables(r.0)
    ensures r.1 == NotFound <==> GetClient(t, id).None?
    ensures !r.1.Toggled? ==> r.0 == t
  {
    match GetClient(t, id)
    case None => (t, NotFound)
    case Some(c) =>
      var c' := c.(isBlocked := !c.isBlocked);
      var peer := if c'.isBlocked then AwgManager.RemovePeerFromServer(iface, c.publicKey, run)
                  else AwgManager.AddPeerToServer(iface, c', run);
      if peer.ok then
        UpdateClientSpecOutcome(t, c');
        var written := UpdateClientSpec(t, c').0;
        (AwgManager.InterfaceStatsSpec(written, refresh.plain, refresh.sudo, refresh.today, refresh.now).1,
         Toggled(c'.isBlocked, peer.commands))
      else (t, Refused(peer.commands))
  }

  /** The store with row `i`'s flag flipped. */
  function Flipped(t: Tables, i: int): Tables
    requires 0 <= i < |t.clients|
  {
    t.(clients := t.clients[i := t.clients[i].(isBlocked := !t.clients[i].isBlocked)])
  }

  /** A toggle of the stored row `i` runs the peer removal first when
      blocking and the peer addition when unblocking, and succeeds iff that
      command does. On success the row's flag flips and the stats are read
      from that store, so the client rows change otherwise only in their
      `last_ip`; on failure nothing changes. */
  lemma ToggleBlockEffect(t: Tables, i: int, iface: string, run: AwgManager.Command -> AwgManager.Exit, refresh: Refresh)
    requires ValidTables(t) && 0 <= i < |t.clients|
    ensures var c := t.clients[i];
      var (t', out) := ToggleBlockSpec(t, c.id.value, iface, run, refresh);
      var first := if c.isBlocked then AwgManager.AddCommand(iface, c.(isBlocked := false))
                   else AwgManager.RemoveCommand(iface, c.publicKey);
      out != NotFound && out.commands[0] == first
      && (out.Toggled? <==> run(first) == AwgManager.Exited(0))
      && (out.Toggled? ==>
            out.blocked == !c.isBlocked && ValidTables(Flipped(t, i))
            && t' == AwgManager.InterfaceStatsSpec(Flipped(t, i), refresh.plain, refresh.sudo, refresh.today, refresh.now).1
            && Enforcement.OnlyLastIp(Flipped(t, i), t'))
  {
    var c := t.clients[i];
    GetClientUnique(t, i);
    Traffic.StoredRowWrite(t, i, c.(isBlocked := !c.isBlocked));
    UpdateClientSpecOutcome(t, c.(isBlocked := !c.isBlocked));
    Enforcement.StatsOnlyLastIp(Flipped(t, i), refresh.plain, refresh.sudo, refresh.today, refresh.now);
  }

  /** Two successful toggles of the same client give every client row its
      flags back: the rows differ from the start only in `last_ip`, which
      the two stats reads may have written. */
  lemma ToggleTwice(t: Tables, i: int, iface: string, run: AwgManager.Command -> AwgManager.Exit, first: Refresh, second: Refresh)
    requires ValidTables(t) && 0 <= i < |t.clients|
    requires ToggleBlockSpec(t, t.clients[i].id.value, iface, run, first).1.Toggled?
    requires ToggleBlockSpec(ToggleBlockSpec(t, t.clients[i].id.value, iface, run, first).0,
                             t.clients[i].id.value, iface, run, second).1.Toggled?
    ensures Enforcement.OnlyLastIp(t, ToggleBlockSpec(ToggleBlockSpec(t, t.clients[i].id.value, iface, run, first).0,
                                                      t.clients[i].id.value, iface, run, second).0)
  {
    var c := t.clients[i];
    ToggleBlockEffect(t, i, iface, run, first);
    var t1 := ToggleBlockSpec(t, c.id.value, iface, run, first).0;
    assert t1.clients[i] == Flipped(t, i).clients[i].(lastIp := t1.clients[i].lastIp);
    ToggleBlockEffect(t1, i, iface, run, second);
    var t2 := ToggleBlockSpec(t1, c.id.value, iface, run, second).0;
    BackToStart(t, t1, i);
    Enforcement.OnlyLastIpTrans(t, Flipped(t1, i), t2);
  }

  /** Flipping a row back after a change of `last_ip` only returns to the
      start up to `last_ip`. */
  lemma BackToStart(t: Tables, t1: Tables, i: int)
    requires 0 <= i < |t.clients| && Enforcement.OnlyLastIp(Flipped(t, i), t1)
    ensures Enforcement.OnlyLastIp(t, Flipped(t1, i))
  {
    var f := Flipped(t1, i);
    forall j | 0 <= j < |t.clients| ensures f.clients[j] == t.clients[j].(lastIp := f.clients[j].lastIp) {
      assert t1.clients[j] == Flipped(t, i).clients[j].(lastIp := t1.clients[j].lastIp);
    }
  }

  /** `toggle_client_block` against the store. */
  method ToggleClientBlock(db: Database, id: int, iface: string, run: AwgManager.Command -> AwgManager.Exit, refresh: Refresh)
    returns (out: Toggle)
    requires db.Valid()
    modifies db
    ensures db.Valid()
    ensures (db.State(), out) == ToggleBlockSpec(old(db.State()), id, iface, run, refresh)
  {
    var found := GetClient(db.State(), id);
    if found.None? {
      return NotFound;
    }
    var c := found.value.(isBlocked := !found.value.isBlocked);
    var peer;
    if c.isBlocked {
      peer := AwgManager.RemovePeerFromServer(iface, c.publicKey, run);
    } else {
      peer := AwgManager.AddPeerToServer(iface, c, run);
    }
    if peer.ok {
      var _ := db.UpdateClient(c);
      var _ := AwgManager.GetInterfaceStats(db, refresh.plain, refresh.sudo, refresh.today, refresh.now);
      return Toggled(c.isBlocked, peer.commands);
    }
    return Refused(peer.commands);
  }
}
