/** The AmneziaWG manager: reading `awg show`, recording where peers connect
    from, choosing a free address, reading the server's config file, composing
    a client config, and the command sequences that change the live
    interface. Every external command is given as its outcome; the contents
    of the server's config file are given as text (None when the file does
    not exist). */
module AwgManager {
  import opened Wrappers
  import opened PyText
  import opened IpLiteral
  import opened Store
  import SettingsService

  // ------------------------------------------------------- `awg show` parser

  /** How an attempt to start a command ends: `create_subprocess_exec`
      raises (the program is missing or cannot be executed), or the process
      runs and exits with a status. */
  datatype Exit = NotStarted | Exited(code: int)

  /** An attempt at a command whose output is read. */
  datatype Completed = Completed(exit: Exit, stdout: string)

  /** Per peer (public key), its `key: value` fields. */
  type PeerStats = map<string, map<string, string>>

  /** The parser's two variables: the stats so far and the open peer. */
  datatype ParseState = ParseState(stats: PeerStats, currentPeer: Option<string>)

  /** A non-empty `endpoint` field: the peer and the text before the first
      colon of the endpoint. */
  datatype Sighting = Sighting(publicKey: string, ip: string)

  const Initial := ParseState(map[], None)

  /** The open peer, if any, has a record. */
  predicate Open(st: ParseState) {
    st.currentPeer.Some? ==> st.currentPeer.value in st.stats
  }

  /** What one line of `awg show` is, once stripped: a `peer:` line with the
      stripped text after its colon, a `key: value` field split at the first
      colon with both sides stripped, or neither. */
  datatype LineKind = PeerLine(peer: string) | FieldLine(key: string, value: string) | OtherLine

  function Classify(raw: string): (k: LineKind)
    ensures k.PeerLine? <==> StartsWith(Strip(raw), "peer:")
    ensures k.FieldLine? <==>
      !StartsWith(Strip(raw), "peer:") && Contains(Strip(raw), ":") && !StartsWith(Strip(raw), "interface:")
  {
    var line := Strip(raw);
    if StartsWith(line, "peer:") then PeerLine(Strip(line[5..]))
    else if StartsWith(line, "interface:") then OtherLine
    else match SplitFirst(line, ":")
      case None => OtherLine
      case Some((k, v)) => FieldLine(Strip(k), Strip(v))
  }

  /** Every line classified, in order. */
  function Classified(lines: seq<string>): (r: seq<LineKind>)
    ensures |r| == |lines|
  {
    seq(|lines|, i requires 0 <= i < |lines| => Classify(lines[i]))
  }

  /** The address part of an endpoint: the text before its first colon. */
  function HostPart(endpoint: string): string {
    SplitOn(endpoint, ":")[0]
  }

  /** One trip through the loop body of `get_interface_stats`. A field is
      recorded only under an open peer whose key is not empty (Python's
      truthiness of `current_peer`). */
  function StepLine(st: ParseState, line: LineKind): (r: (ParseState, Option<Sighting>))
    requires Open(st)
    ensures Open(r.0)
    ensures r.1.Some? ==> r.1.value.publicKey in r.0.stats
  {
    match line
    case PeerLine(peer) => (ParseState(st.stats[peer := map[]], Some(peer)), None)
    case FieldLine(key, value) =>
      if st.currentPeer.Some? && st.currentPeer.value != "" then
        var peer := st.currentPeer.value;
        var st' := st.(stats := st.stats[peer := st.stats[peer][key := value]]);
        if key == "endpoint" && value != "" then (st', Some(Sighting(peer, HostPart(value))))
        else (st', None)
      else (st, None)
    case OtherLine => (st, None)
  }

  /** The loop's variables together with the sightings met so far. */
  datatype Parsed = Parsed(state: ParseState, seen: seq<Sighting>)

  /** One more line: the step, and its sighting appended when there is one. */
  function Extend(p: Parsed, raw: LineKind): (r: Parsed)
    requires Open(p.state)
    ensures Open(r.state)
    ensures |r.seen| <= |p.seen| + 1
  {
    var step := StepLine(p.state, raw);
    Parsed(step.0, if step.1.Some? then p.seen + [step.1.value] else p.seen)
  }

  /** The loop run over the (classified) `lines` from `st`. */
  function Run(st: ParseState, lines: seq<LineKind>): (r: Parsed)
    requires Open(st)
    ensures Open(r.state)
    ensures |r.seen| <= |lines|
  {
    if lines == [] then Parsed(st, [])
    else Extend(Run(st, lines[..|lines| - 1]), lines[|lines| - 1])
  }

  lemma AppendAssoc<T>(x: seq<T>, y: seq<T>, z: seq<T>)
    ensures x + (y + z) == (x + y) + z
  {
  }

  lemma RunSnoc(st: ParseState, s: seq<LineKind>, x: LineKind)
    requires Open(st)
    ensures Run(st, s + [x]) == Extend(Run(st, s), x)
  {
    assert (s + [x])[..|s|] == s;
  }

  /** Running over `a + b` is running over `a`, then over `b`. */
  lemma {:induction false} RunAppend(st: ParseState, a: seq<LineKind>, b: seq<LineKind>)
    requires Open(st)
    ensures Run(st, a + b).state == Run(Run(st, a).state, b).state
    ensures Run(st, a + b).seen == Run(st, a).seen + Run(Run(st, a).state, b).seen
  {
    if b == [] {
      assert a + b == a;
    } else {
      var b', x := b[..|b| - 1], b[|b| - 1];
      RunAppend(st, a, b');
      assert a + b == (a + b') + [x] && b == b' + [x];
      RunSnoc(st, a + b', x);
      RunSnoc(Run(st, a).state, b', x);
      var p1, p2 := Run(st, a + b'), Run(Run(st, a).state, b');
      var step := StepLine(p1.state, x);
      assert StepLine(p2.state, x) == step;
      if step.1.Some? {
        AppendAssoc(Run(st, a).seen, p2.seen, [step.1.value]);
      }
    }
  }

  /** Lines before the first `peer:` line leave no trace: no record, no
      sighting, no open peer. */
  lemma {:induction false} NoPeerNoTrace(lines: seq<LineKind>)
    requires forall i :: 0 <= i < |lines| ==> !lines[i].PeerLine?
    ensures Run(Initial, lines) == Parsed(Initial, [])
  {
    if lines != [] {
      NoPeerNoTrace(lines[..|lines| - 1]);
    }
  }

  /** Hence the parse of `pre + rest` is the parse of `rest` when `pre` holds
      no `peer:` line. */
  lemma LinesBeforeFirstPeerDropped(pre: seq<LineKind>, rest: seq<LineKind>)
    requires forall i :: 0 <= i < |pre| ==> !pre[i].PeerLine?
    ensures Run(Initial, pre + rest) == Run(Initial, rest)
  {
    NoPeerNoTrace(pre);
    RunAppend(Initial, pre, rest);
  }

  /** The value of the last field line in `body` with key `k`. */
  function LastValue(body: seq<LineKind>, k: string): Option<string> {
    if body == [] then None
    else match body[|body| - 1]
      case FieldLine(k', v) => if k' == k then Some(v) else LastValue(body[..|body| - 1], k)
      case _ => LastValue(body[..|body| - 1], k)
  }

  /** After a `peer:` line with a non-empty key and a run of lines that
      opens no other peer, that peer is open and its record maps every key
      to the value of the last field line carrying it (a repeated key
      overwrites the earlier one), and holds no other key. */
  lemma {:induction false} PeerRecord(pre: seq<LineKind>, p: string, body: seq<LineKind>, k: string)
    requires p != ""
    requires forall i :: 0 <= i < |body| ==> !body[i].PeerLine?
    ensures var st := Run(Initial, pre + [PeerLine(p)] + body).state;
      st.currentPeer == Some(p) && p in st.stats
      && (k in st.stats[p] <==> LastValue(body, k).Some?)
      && (k in st.stats[p] ==> st.stats[p][k] == LastValue(body, k).value)
  {
    var peerLine := PeerLine(p);
    if body == [] {
      assert pre + [peerLine] + body == pre + [peerLine];
      assert (pre + [peerLine])[..|pre|] == pre;
    } else {
      var body' := body[..|body| - 1];
      var all := pre + [peerLine] + body;
      assert all[..|all| - 1] == pre + [peerLine] + body';
      assert all[|all| - 1] == body[|body| - 1];
      PeerRecord(pre, p, body', k);
    }
  }

  /** Every record key was opened by some `peer:` line. */
  lemma {:induction false} RecordsComeFromPeerLines(lines: seq<LineKind>, key: string)
    requires key in Run(Initial, lines).state.stats
    ensures PeerLine(key) in lines
  {
    var init := lines[..|lines| - 1];
    if lines[|lines| - 1] != PeerLine(key) {
      RecordsComeFromPeerLines(init, key);
      assert forall x :: x in init ==> x in lines;
    }
  }

  /** The text `awg show` printed, or None when both the plain and the sudo
      attempt exited non-zero; the sudo attempt is made only when the plain
      one ran and exited non-zero. A plain command that cannot be started
      raises into the handler, which returns no stats. */
  function ShowOutput(plain: Completed, sudo: Completed): (r: Option<string>)
    ensures r.Some? <==> plain.exit == Exited(0) || (plain.exit.Exited? && sudo.exit == Exited(0))
    ensures plain.exit == Exited(0) ==> r == Some(plain.stdout)
    ensures plain.exit != Exited(0) && r.Some? ==> r == Some(sudo.stdout)
  {
    match plain.exit
    case NotStarted => None
    case Exited(code) =>
      if code != 0 then (if sudo.exit != Exited(0) then None else Some(sudo.stdout))
      else Some(plain.stdout)
  }

  // ------------------------------------------------------ `_track_client_ip`

  /** The first client in the list with this public key, as an index, or -1. */
  function FirstWithKey(cs: seq<Client>, key: string): (r: int)
    ensures -1 <= r < |cs|
    ensures r >= 0 ==> cs[r].publicKey == key && forall j :: 0 <= j < r ==> cs[j].publicKey != key
    ensures r < 0 <==> forall j :: 0 <= j < |cs| ==> cs[j].publicKey != key
  {
    if cs == [] then -1
    else if cs[0].publicKey == key then 0
    else
      var k := FirstWithKey(cs[1..], key);
      assert forall j :: 1 <= j < |cs| ==> cs[j] == cs[1..][j - 1];
      if k < 0 then -1 else k + 1
  }

  lemma ListedIsStored(t: Tables, i: int)
    requires ValidTables(t) && 0 <= i < |GetAllClients(t)|
    ensures GetAllClients(t)[i] in t.clients && WellStored(GetAllClients(t)[i], t.nextId)
  {
    assert GetAllClients(t)[i] in multiset(GetAllClients(t));
  }

  /** What `_track_client_ip` does once it has found client `c`: write
      `last_ip = ip` (a failed write raises, and then nothing else happens),
      then count the connection. */
  function RecordSighting(t: Tables, c: Client, ip: string, today: string, now: int): (r: Tables)
    requires ValidTables(t) && c.id.Some?
    ensures ValidTables(r)
  {
    var written := UpdateClientSpec(t, c.(lastIp := ip));
    UpdateClientSpecOutcome(t, c.(lastIp := ip));
    if written.1.Err? then written.0
    else
      AddConnectionSpecCorrect(written.0, c.id.value, ip, today, now);
      AddConnectionSpec(written.0, c.id.value, ip, today, now)
  }

  /** `_track_client_ip(key, ip)` on `today` at `now`: the first client (in
      `get_all_clients` order) with that key is recorded; an unknown key
      changes nothing. */
  function TrackClientIpSpec(t: Tables, s: Sighting, today: string, now: int): (r: Tables)
    requires ValidTables(t)
    ensures ValidTables(r)
  {
    var cs := GetAllClients(t);
    var i := FirstWithKey(cs, s.publicKey);
    if i < 0 then t
    else
      ListedIsStored(t, i);
      RecordSighting(t, cs[i], s.ip, today, now)
  }

  /** The sightings of one parse, tracked in order. */
  function TrackAll(t: Tables, seen: seq<Sighting>, today: string, now: int): (r: Tables)
    requires ValidTables(t)
    ensures ValidTables(r)
  {
    if seen == [] then t
    else TrackClientIpSpec(TrackAll(t, seen[..|seen| - 1], today, now), seen[|seen| - 1], today, now)
  }

  /** A key no client holds changes nothing. */
  lemma UnknownKeyChangesNothing(t: Tables, s: Sighting, today: string, now: int)
    requires ValidTables(t)
    requires forall i :: 0 <= i < |t.clients| ==> t.clients[i].publicKey != s.publicKey
    ensures TrackClientIpSpec(t, s, today, now) == t
  {
    var cs := GetAllClients(t);
    forall j | 0 <= j < |cs| ensures cs[j].publicKey != s.publicKey {
      assert cs[j] in multiset(cs);
    }
  }

  /** For a known key, the first such client (in listing order) now has
      `last_ip` set to the sighted address with every other column as before,
      every other client is unchanged, and the counter for (client, address,
      today) went up by one. */
  lemma KnownKeyRecorded(t: Tables, s: Sighting, today: string, now: int)
    requires ValidTables(t)
    requires FirstWithKey(GetAllClients(t), s.publicKey) >= 0
    ensures var c := GetAllClients(t)[FirstWithKey(GetAllClients(t), s.publicKey)];
      var t' := TrackClientIpSpec(t, s, today, now);
      c.id.Some?
      && GetClient(t', c.id.value) == Some(c.(lastIp := s.ip))
      && (forall other :: other != c.id.value ==> GetClient(t', other) == GetClient(t, other))
      && CountOf(t', (c.id.value, s.ip, today)) == CountOf(t, (c.id.value, s.ip, today)) + 1
  {
    var cs := GetAllClients(t);
    var i := FirstWithKey(cs, s.publicKey);
    ListedIsStored(t, i);
    var j :| 0 <= j < |t.clients| && t.clients[j] == cs[i];
    StoredRecorded(t, j, s.ip, today, now);
  }

  /** Recording a stored client's sighting writes its `last_ip` and nothing
      else, and bumps its counter for the day. */
  lemma StoredRecorded(t: Tables, j: int, ip: string, today: string, now: int)
    requires ValidTables(t) && 0 <= j < |t.clients|
    ensures var c := t.clients[j];
      var t' := RecordSighting(t, c, ip, today, now);
      GetClient(t', c.id.value) == Some(c.(lastIp := ip))
      && (forall other :: other != c.id.value ==> GetClient(t', other) == GetClient(t, other))
      && CountOf(t', (c.id.value, ip, today)) == CountOf(t, (c.id.value, ip, today)) + 1
  {
    var c := t.clients[j];
    LastIpWritten(t, j, ip);
    var t1 := UpdateClientSpec(t, c.(lastIp := ip)).0;
    AddConnectionSpecCorrect(t1, c.id.value, ip, today, now);
    var t' := AddConnectionSpec(t1, c.id.value, ip, today, now);
    assert RecordSighting(t, c, ip, today, now) == t';
    forall other ensures GetClient(t', other) == GetClient(t1, other) {
      assert t'.clients == t1.clients;
    }
  }

  /** Writing `last_ip` of a stored client succeeds and changes that row's
      `last_ip` only. */
  lemma LastIpWritten(t: Tables, j: int, ip: string)
    requires ValidTables(t) && 0 <= j < |t.clients|
    ensures var c := t.clients[j];
      var u := UpdateClientSpec(t, c.(lastIp := ip));
      c.id.Some? && u.1 == Ok(true) && ValidTables(u.0)
      && GetClient(u.0, c.id.value) == Some(c.(lastIp := ip))
      && (forall other :: other != c.id.value ==> GetClient(u.0, other) == GetClient(t, other))
      && u.0.connections == t.connections
  {
    var c := t.clients[j];
    GetClientUnique(t, j);
    GetClientByNameIs(t, j);
    var w := c.(lastIp := ip);
    UpdateClientSpecOutcome(t, w);
    UpdateClientSpecWrites(t, w);
    assert Written(c, w) == w;
  }

  /** `_track_client_ip`: find the first client with the key, write its
      `last_ip`, count the connection. */
  method TrackClientIp(db: Database, s: Sighting, today: string, now: int)
    requires db.Valid()
    modifies db
    ensures db.Valid()
    ensures db.State() == TrackClientIpSpec(old(db.State()), s, today, now)
  {
    var clients := GetAllClients(db.State());
    var i := 0;
    while i < |clients| && clients[i].publicKey != s.publicKey
      invariant 0 <= i <= |clients|
      invariant forall j :: 0 <= j < i ==> clients[j].publicKey != s.publicKey
    {
      i := i + 1;
    }
    if i == |clients| {
      return;
    }
    assert FirstWithKey(clients, s.publicKey) == i;
    ListedIsStored(db.State(), i);
    RecordClient(db, clients[i], s.ip, today, now);
  }

  /** The write and the count, on the store. */
  method RecordClient(db: Database, c: Client, ip: string, today: string, now: int)
    requires db.Valid() && c.id.Some?
    modifies db
    ensures db.Valid()
    ensures db.State() == RecordSighting(old(db.State()), c, ip, today, now)
  {
    var r := db.UpdateClient(c.(lastIp := ip));
    if r.Err? {
      return;
    }
    db.AddClientIpConnection(c.id.value, ip, today, now);
  }

  /** `get_interface_stats`: the records of `awg show`, after tracking every
      endpoint sighting against the store. */
  function InterfaceStatsSpec(t: Tables, plain: Completed, sudo: Completed, today: string, now: int): (r: (PeerStats, Tables))
    requires ValidTables(t)
    ensures ValidTables(r.1)
  {
    match ShowOutput(plain, sudo)
    case None => (map[], t)
    case Some(out) =>
      var parsed := Run(Initial, Classified(SplitOn(out, "\n")));
      (parsed.state.stats, TrackAll(t, parsed.seen, today, now))
  }

  method GetInterfaceStats(db: Database, plain: Completed, sudo: Completed, today: string, now: int)
    returns (stats: PeerStats)
    requires db.Valid()
    modifies db
    ensures db.Valid()
    ensures (stats, db.State()) == InterfaceStatsSpec(old(db.State()), plain, sudo, today, now)
  {
    var out := ShowOutput(plain, sudo);
    if out.None? {
      return map[];
    }
    stats := FeedLines(db, SplitOn(out.value, "\n"), today, now);
  }

  /** The loop of `get_interface_stats` over the lines of the output. */
  method FeedLines(db: Database, lines: seq<string>, today: string, now: int) returns (stats: PeerStats)
    requires db.Valid()
    modifies db
    ensures db.Valid()
    ensures var parsed := Run(Initial, Classified(lines));
      stats == parsed.state.stats && db.State() == TrackAll(old(db.State()), parsed.seen, today, now)
  {
    stats := FeedKinds(db, Classified(lines), today, now);
  }

  /** The same loop over the lines once classified. */
  method FeedKinds(db: Database, kinds: seq<LineKind>, today: string, now: int) returns (stats: PeerStats)
    requires db.Valid()
    modifies db
    ensures db.Valid()
    ensures var parsed := Run(Initial, kinds);
      stats == parsed.state.stats && db.State() == TrackAll(old(db.State()), parsed.seen, today, now)
  {
    var st := Initial;
    ghost var seen: seq<Sighting> := [];
    ghost var t0 := db.State();
    for i := 0 to |kinds|
      invariant Open(st)
      invariant Parsed(st, seen) == Run(Initial, kinds[..i])
      invariant db.Valid() && db.State() == TrackAll(t0, seen, today, now)
    {
      RunPrefix(kinds, i);
      st, seen := FeedLine(db, st, kinds[i], t0, seen, today, now);
    }
    assert kinds[..|kinds|] == kinds;
    stats := st.stats;
  }

  lemma RunPrefix(kinds: seq<LineKind>, i: nat)
    requires i < |kinds|
    ensures Run(Initial, kinds[..i + 1]) == Extend(Run(Initial, kinds[..i]), kinds[i])
  {
    assert kinds[..i + 1] == kinds[..i] + [kinds[i]];
    RunSnoc(Initial, kinds[..i], kinds[i]);
  }

  /** One iteration of the loop in `get_interface_stats`: step the parser
      and track the sighting, if any, at once. */
  method FeedLine(db: Database, st: ParseState, line: LineKind, ghost t0: Tables, ghost seen: seq<Sighting>,
                  today: string, now: int)
    returns (st': ParseState, ghost seen': seq<Sighting>)
    requires Open(st) && ValidTables(t0)
    requires db.Valid() && db.State() == TrackAll(t0, seen, today, now)
    modifies db
    ensures Open(st')
    ensures Parsed(st', seen') == Extend(Parsed(st, seen), line)
    ensures db.Valid() && db.State() == TrackAll(t0, seen', today, now)
  {
    var step := StepLine(st, line);
    st', seen' := step.0, seen;
    if step.1.Some? {
      TrackClientIp(db, step.1.value, today, now);
      seen' := seen + [step.1.value];
      assert seen'[..|seen'| - 1] == seen;
    }
  }

  // ------------------------------------------------- `get_next_available_ip`

  /** The addresses `get_next_available_ip` treats as taken: every listed
      client's `ip_address`, and the server's own address. */
  function UsedAddresses(cs: seq<Client>, serverIp: string): (r: set<string>)
    ensures forall x :: x in r <==> x == serverIp || IpTaken(cs, x)
  {
    (set i | 0 <= i < |cs| :: cs[i].ipAddress) + {serverIp}
  }

  /** The index of the first host whose dotted quad is not in `used`, or -1. */
  function FirstFreeIndex(hosts: seq<nat>, used: set<string>): (r: int)
    requires forall i :: 0 <= i < |hosts| ==> hosts[i] < Ipv4Count
    ensures -1 <= r < |hosts|
    ensures r >= 0 ==> Ipv4ToString(hosts[r]) !in used
    ensures r >= 0 ==> forall j :: 0 <= j < r ==> Ipv4ToString(hosts[j]) in used
    ensures r < 0 ==> forall j :: 0 <= j < |hosts| ==> Ipv4ToString(hosts[j]) in used
  {
    if hosts == [] then -1
    else if Ipv4ToString(hosts[0]) !in used then 0
    else
      var k := FirstFreeIndex(hosts[1..], used);
      assert forall j :: 1 <= j < |hosts| ==> hosts[j] == hosts[1..][j - 1];
      if k < 0 then -1 else k + 1
  }

  /** The lowest free host of the network `net/prefix`. */
  function NextInNetwork(t: Tables, net: nat, prefix: nat, serverIp: string): (r: Option<string>)
    requires prefix <= 32 && net + Pow2(32 - prefix) <= Ipv4Count
  {
    var hosts := Hosts(net, prefix);
    var k := FirstFreeIndex(hosts, UsedAddresses(GetAllClients(t), serverIp));
    if k < 0 then None else Some(Ipv4ToString(hosts[k]))
  }

  /** `get_next_available_ip` for the configured `server_subnet` and
      `server_ip`: None when the subnet does not parse (strictly, as
      `IPv4Network`), otherwise the lowest free host. */
  function NextAvailableIp(t: Tables, subnet: string, serverIp: string): (r: Option<string>)
    ensures ParseIpv4Network(subnet).None? ==> r.None?
  {
    NextInParsed(t, ParseIpv4Network(subnet), serverIp)
  }

  /** The lowest free host of an already parsed network, if there is one;
      None also for a pair that is no network (which the parser never yields). */
  function NextInParsed(t: Tables, network: Option<(nat, nat)>, serverIp: string): (r: Option<string>)
    ensures network.None? ==> r.None?
  {
    match network
    case None => None
    case Some((net, prefix)) =>
      if prefix <= 32 && net < Ipv4Count && net % Pow2(32 - prefix) == 0 then
        NetworkFits(net, prefix);
        NextInNetwork(t, net, prefix, serverIp)
      else None
  }

  lemma SameAddresses(t: Tables, x: string)
    ensures IpTaken(GetAllClients(t), x) <==> IpTaken(t.clients, x)
  {
    var cs := GetAllClients(t);
    if IpTaken(cs, x) {
      var i :| 0 <= i < |cs| && cs[i].ipAddress == x;
      assert cs[i] in multiset(t.clients);
      var j :| 0 <= j < |t.clients| && t.clients[j] == cs[i];
    }
    if IpTaken(t.clients, x) {
      var j :| 0 <= j < |t.clients| && t.clients[j].ipAddress == x;
      assert t.clients[j] in multiset(cs);
      var i :| 0 <= i < |cs| && cs[i] == t.clients[j];
    }
  }

  /** The address handed out is a host of the network (neither its network
      nor its broadcast address when the prefix is below 31), no client holds
      it, it is not the server's, and every lower host is taken; None means
      every host is taken. */
  lemma NextInNetworkIsLowestFree(t: Tables, net: nat, prefix: nat, serverIp: string)
    requires prefix <= 32 && net + Pow2(32 - prefix) <= Ipv4Count
    ensures var r := NextInNetwork(t, net, prefix, serverIp);
      var hosts := Hosts(net, prefix);
      (r.Some? ==>
        ParseIpv4(r.value).Some?
        && var a := ParseIpv4(r.value).value;
        net <= a < net + Pow2(32 - prefix)
        && (prefix < 31 ==> net < a < net + Pow2(32 - prefix) - 1)
        && !IpTaken(t.clients, r.value) && r.value != serverIp
        && forall j :: 0 <= j < |hosts| && hosts[j] < a ==>
             IpTaken(t.clients, Ipv4ToString(hosts[j])) || Ipv4ToString(hosts[j]) == serverIp)
      && (r.None? ==>
        forall j :: 0 <= j < |hosts| ==> IpTaken(t.clients, Ipv4ToString(hosts[j])) || Ipv4ToString(hosts[j]) == serverIp)
  {
    var hosts := Hosts(net, prefix);
    var used := UsedAddresses(GetAllClients(t), serverIp);
    var k := FirstFreeIndex(hosts, used);
    forall j | 0 <= j < |hosts|
      ensures Ipv4ToString(hosts[j]) in used <==> IpTaken(t.clients, Ipv4ToString(hosts[j])) || Ipv4ToString(hosts[j]) == serverIp
    {
      SameAddresses(t, Ipv4ToString(hosts[j]));
    }
    if k >= 0 {
      ParseIpv4OfIpv4ToString(hosts[k]);
      SameAddresses(t, Ipv4ToString(hosts[k]));
    }
  }

  /** `get_next_available_ip`: collect the taken addresses, then scan the
      hosts in ascending order. */
  method GetNextAvailableIp(db: Database, subnet: string, serverIp: string) returns (r: Option<string>)
    ensures r == NextAvailableIp(db.State(), subnet, serverIp)
  {
    var network := ParseIpv4Network(subnet);
    if network.None? {
      return None;
    }
    var (net, prefix) := network.value;
    var used := CollectUsed(GetAllClients(db.State()), serverIp);
    NetworkFits(net, prefix);
    var hosts := Hosts(net, prefix);
    var k := ScanHosts(hosts, used);
    r := if k < 0 then None else Some(Ipv4ToString(hosts[k]));
    assert r == NextInParsed(db.State(), network, serverIp);
  }

  /** The `used_ips` set: each client's address, then the server's. */
  method CollectUsed(clients: seq<Client>, serverIp: string) returns (used: set<string>)
    ensures used == UsedAddresses(clients, serverIp)
  {
    used := {};
    for i := 0 to |clients|
      invariant used == set j | 0 <= j < i :: clients[j].ipAddress
    {
      used := used + {clients[i].ipAddress};
    }
    used := used + {serverIp};
  }

  /** The scan over `network.hosts()`: the first host not in `used`. */
  method ScanHosts(hosts: seq<nat>, used: set<string>) returns (k: int)
    requires forall i :: 0 <= i < |hosts| ==> hosts[i] < Ipv4Count
    ensures k == FirstFreeIndex(hosts, used)
  {
    for i := 0 to |hosts|
      invariant forall j :: 0 <= j < i ==> Ipv4ToString(hosts[j]) in used
    {
      if Ipv4ToString(hosts[i]) !in used {
        return i;
      }
    }
    return -1;
  }

  // --------------------------------------------- `get_server_amnezia_params`

  /** The `[Interface]` keys that are never passed through to a client. */
  const SkipParams: set<string> := {"PrivateKey", "PublicKey", "Address", "ListenPort", "PostUp", "PostDown",
                                     "DNS", "AllowedIPs", "Endpoint", "PersistentKeepalive", "PresharedKey", "FwMark"}

  /** An insertion-ordered dict of strings, as a list of (key, value). */
  type Params = seq<(string, string)>

  function KeysOf(d: Params): (r: seq<string>)
    ensures |r| == |d| && forall i :: 0 <= i < |d| ==> r[i] == d[i].0
  {
    seq(|d|, i requires 0 <= i < |d| => d[i].0)
  }

  predicate DistinctKeys(d: Params) {
    forall i, j :: 0 <= i < j < |d| ==> d[i].0 != d[j].0
  }

  /** The value stored under `k`, if any. */
  function Lookup(d: Params, k: string): (r: Option<string>)
    ensures r.None? <==> k !in KeysOf(d)
  {
    if d == [] then None
    else if d[0].0 == k then Some(d[0].1)
    else
      assert KeysOf(d) == [d[0].0] + KeysOf(d[1..]);
      Lookup(d[1..], k)
  }

  /** `d[k] = v` on a Python dict: an existing key keeps its place and takes
      the new value; a new key goes last. */
  function Put(d: Params, k: string, v: string): (r: Params)
    ensures k in KeysOf(d) ==> KeysOf(r) == KeysOf(d)
    ensures k !in KeysOf(d) ==> KeysOf(r) == KeysOf(d) + [k]
  {
    if d == [] then [(k, v)]
    else if d[0].0 == k then
      KeysOfCons((k, v), d[1..]);
      KeysOfCons(d[0], d[1..]);
      [(k, v)] + d[1..]
    else
      var rest := Put(d[1..], k, v);
      KeysOfCons(d[0], d[1..]);
      KeysOfCons(d[0], rest);
      [d[0]] + rest
  }

  lemma KeysOfCons(x: (string, string), d: Params)
    ensures KeysOf([x] + d) == [x.0] + KeysOf(d)
    ensures [x] + d != [] && ([x] + d)[0] == x && ([x] + d)[1..] == d
  {
  }

  /** After `d[k] = v`, `d[k]` is `v` and every other key reads as before. */
  lemma {:induction false} PutLookup(d: Params, k: string, v: string, k': string)
    ensures Lookup(Put(d, k, v), k') == if k' == k then Some(v) else Lookup(d, k')
  {
    if d != [] && d[0].0 != k {
      PutLookup(d[1..], k, v, k');
      assert Put(d, k, v)[1..] == Put(d[1..], k, v);
    }
  }

  /** Keys stay distinct under `d[k] = v`. */
  lemma PutDistinct(d: Params, k: string, v: string)
    requires DistinctKeys(d)
    ensures DistinctKeys(Put(d, k, v))
  {
    var r := Put(d, k, v);
    var ks, kr := KeysOf(d), KeysOf(r);
    forall i, j | 0 <= i < j < |r| ensures r[i].0 != r[j].0 {
      assert kr[i] == r[i].0 && kr[j] == r[j].0;
      if k !in ks && j == |d| {
        assert kr[i] == ks[i];
      } else {
        assert kr[i] == ks[i] && kr[j] == ks[j];
        assert d[i].0 == ks[i] && d[j].0 == ks[j];
      }
    }
  }

  /** A line of the server's config file, once stripped: blank or a comment,
      a section header (and whether it is exactly `[Interface]`), a
      `key = value` split at the first `=` with both sides stripped, or
      anything else. */
  datatype ConfLine = Ignored | Header(isInterface: bool) | Assignment(key: string, value: string) | Plain

  function ClassifyConf(raw: string): (k: ConfLine)
    ensures k.Ignored? <==> Strip(raw) == "" || StartsWith(Strip(raw), "#")
    ensures k.Header? <==> Strip(raw) != "" && !StartsWith(Strip(raw), "#") && StartsWith(Strip(raw), "[")
    ensures k.Header? ==> (k.isInterface <==> Strip(raw) == "[Interface]")
    ensures k.Plain? <==>
      (Strip(raw) != "" && !StartsWith(Strip(raw), "#") && !StartsWith(Strip(raw), "[") && !Contains(Strip(raw), "="))
  {
    var line := Strip(raw);
    if line == "" || StartsWith(line, "#") then Ignored
    else if StartsWith(line, "[") then Header(line == "[Interface]")
    else match SplitFirst(line, "=")
      case None => Plain
      case Some((k, v)) => Assignment(Strip(k), Strip(v))
  }

  /** Any other line holding `=` is split at its first `=`, and both sides
      are stripped. */
  lemma ClassifyAssignment(raw: string, key: string, value: string)
    requires '=' !in key && Strip(raw) == key + "=" + value
    requires !StartsWith(Strip(raw), "#") && !StartsWith(Strip(raw), "[")
    ensures ClassifyConf(raw) == Assignment(Strip(key), Strip(value))
  {
    SplitFirstCons(key, '=', value);
  }

  function ClassifiedConf(lines: seq<string>): (r: seq<ConfLine>)
    ensures |r| == |lines|
  {
    seq(|lines|, i requires 0 <= i < |lines| => ClassifyConf(lines[i]))
  }

  /** The scan's two variables. */
  datatype ScanState = ScanState(params: Params, inInterface: bool)

  predicate Clean(d: Params) {
    DistinctKeys(d) && forall i :: 0 <= i < |d| ==> d[i].0 !in SkipParams
  }

  /** One trip through the loop body of `get_server_amnezia_params`. */
  function ScanStep(st: ScanState, line: ConfLine): (r: ScanState)
    ensures Clean(st.params) ==> Clean(r.params)
  {
    match line
    case Ignored => st
    case Header(isInterface) => st.(inInterface := isInterface)
    case Assignment(k, v) =>
      if st.inInterface && k !in SkipParams then
        PutClean(st.params, k, v);
        st.(params := Put(st.params, k, v))
      else st
    case Plain => st
  }

  lemma PutClean(d: Params, k: string, v: string)
    requires k !in SkipParams
    ensures Clean(d) ==> Clean(Put(d, k, v))
  {
    if Clean(d) {
      PutDistinct(d, k, v);
      var r := Put(d, k, v);
      forall i | 0 <= i < |r| ensures r[i].0 !in SkipParams {
        assert r[i].0 == KeysOf(r)[i];
        if i < |d| { assert KeysOf(d)[i] == d[i].0; }
      }
    }
  }

  lemma ScanSnoc(st: ScanState, s: seq<ConfLine>, x: ConfLine)
    ensures Scan(st, s + [x]) == ScanStep(Scan(st, s), x)
  {
    assert (s + [x])[..|s|] == s;
  }

  lemma ScanPrefix(kinds: seq<ConfLine>, i: nat)
    requires i < |kinds|
    ensures Scan(ScanStart, kinds[..i + 1]) == ScanStep(Scan(ScanStart, kinds[..i]), kinds[i])
  {
    assert kinds[..i + 1] == kinds[..i] + [kinds[i]];
    ScanSnoc(ScanStart, kinds[..i], kinds[i]);
  }

  /** The scan over the (classified) lines, from `st`. */
  function Scan(st: ScanState, lines: seq<ConfLine>): (r: ScanState)
    ensures Clean(st.params) ==> Clean(r.params)
  {
    if lines == [] then st else ScanStep(Scan(st, lines[..|lines| - 1]), lines[|lines| - 1])
  }

  const ScanStart := ScanState([], false)

  /** `get_server_amnezia_params` given the config file's contents: None
      when the file does not exist, otherwise the passthrough parameters in
      file order. */
  function AmneziaParams(content: Option<string>): (r: Option<Params>)
    ensures r.Some? <==> content.Some?
    ensures r.Some? ==> Clean(r.value)
  {
    match content
    case None => None
    case Some(c) => Some(Scan(ScanStart, ClassifiedConf(SplitOn(c, "\n"))).params)
  }

  /** Outside `[Interface]` nothing is collected: a file with no
      `[Interface]` header yields no parameters. */
  lemma {:induction false} NoInterfaceNoParams(lines: seq<ConfLine>)
    requires Header(true) !in lines
    ensures Scan(ScanStart, lines) == ScanStart
  {
    if lines != [] {
      assert forall x :: x in lines[..|lines| - 1] ==> x in lines;
      NoInterfaceNoParams(lines[..|lines| - 1]);
    }
  }

  /** The section a line is in: whether the last header before it was
      exactly `[Interface]`, or None before any header. */
  function LastHeader(lines: seq<ConfLine>): Option<bool>
  {
    if lines == [] then None
    else if lines[|lines| - 1].Header? then Some(lines[|lines| - 1].isInterface)
    else LastHeader(lines[..|lines| - 1])
  }

  /** The scan's `in_interface_section` flag is whether the last header seen
      was `[Interface]`. */
  lemma {:induction false} ScanSection(lines: seq<ConfLine>)
    ensures Scan(ScanStart, lines).inInterface <==> LastHeader(lines) == Some(true)
  {
    if lines != [] {
      ScanSection(lines[..|lines| - 1]);
    }
  }

  /** Every parameter returned comes from a `key = value` line with that key
      and value inside `[Interface]`, and each key kept is not denylisted. */
  lemma {:induction false} ParamsFromAssignments(lines: seq<ConfLine>, i: int)
    requires 0 <= i < |Scan(ScanStart, lines).params|
    ensures var (k, v) := Scan(ScanStart, lines).params[i];
      k !in SkipParams && InInterfaceAt(lines, k, v)
  {
    var n := |lines| - 1;
    var init := lines[..n];
    var before := Scan(ScanStart, init);
    var after := Scan(ScanStart, lines).params;
    var (k, v) := after[i];
    assert lines == init + [lines[n]];
    if lines[n] == Assignment(k, v) && before.inInterface && k !in SkipParams {
      ScanSection(init);
      assert lines[..n] == init;
    } else {
      assert after[i] in before.params by {
        PutOnlyAdds(before.params, lines[n], before.inInterface, i);
      }
      var j :| 0 <= j < |before.params| && before.params[j] == (k, v);
      ParamsFromAssignments(init, j);
      InInterfaceAtSnoc(init, lines[n], k, v);
    }
  }

  /** Some line of `lines` is `k = v` and sits inside `[Interface]`. */
  ghost predicate InInterfaceAt(lines: seq<ConfLine>, k: string, v: string) {
    exists j :: 0 <= j < |lines| && lines[j] == Assignment(k, v) && LastHeader(lines[..j]) == Some(true)
  }

  lemma InInterfaceAtSnoc(lines: seq<ConfLine>, x: ConfLine, k: string, v: string)
    requires InInterfaceAt(lines, k, v)
    ensures InInterfaceAt(lines + [x], k, v)
  {
    var j :| 0 <= j < |lines| && lines[j] == Assignment(k, v) && LastHeader(lines[..j]) == Some(true);
    assert (lines + [x])[j] == lines[j] && (lines + [x])[..j] == lines[..j];
  }

  /** Line `m` assigns `k` inside `[Interface]`. */
  ghost predicate Reassigns(lines: seq<ConfLine>, m: int, k: string)
    requires 0 <= m < |lines|
  {
    lines[m].Assignment? && lines[m].key == k && LastHeader(lines[..m]) == Some(true)
  }

  /** Every `key = value` line inside `[Interface]` whose key is not
      denylisted is returned with its value, unless a later line inside
      `[Interface]` assigns the same key. */
  lemma AssignmentCollected(lines: seq<ConfLine>, j: int, k: string, v: string)
    requires 0 <= j < |lines| && lines[j] == Assignment(k, v) && LastHeader(lines[..j]) == Some(true)
    requires k !in SkipParams
    requires forall m :: j < m < |lines| ==> !Reassigns(lines, m, k)
    ensures Lookup(Scan(ScanStart, lines).params, k) == Some(v)
  {
    CollectedUpTo(lines, j, k, v, |lines|);
    assert lines[..|lines|] == lines;
  }

  lemma {:induction false} CollectedUpTo(lines: seq<ConfLine>, j: int, k: string, v: string, n: int)
    requires 0 <= j < n <= |lines| && lines[j] == Assignment(k, v) && LastHeader(lines[..j]) == Some(true)
    requires k !in SkipParams
    requires forall m :: j < m < |lines| ==> !Reassigns(lines, m, k)
    ensures Lookup(Scan(ScanStart, lines[..n]).params, k) == Some(v)
    decreases n
  {
    if n - 1 == j {
      CollectedAt(lines, j, k, v, n);
    } else {
      CollectedUpTo(lines, j, k, v, n - 1);
      CollectedStep(lines, n, k, v);
    }
  }

  lemma CollectedAt(lines: seq<ConfLine>, j: nat, k: string, v: string, n: nat)
    requires n == j + 1 <= |lines| && lines[j] == Assignment(k, v) && LastHeader(lines[..j]) == Some(true)
    requires k !in SkipParams
    ensures Lookup(Scan(ScanStart, lines[..n]).params, k) == Some(v)
  {
    ScanPrefix(lines, j);
    ScanSection(lines[..j]);
    PutLookup(Scan(ScanStart, lines[..j]).params, k, v, k);
  }

  lemma CollectedStep(lines: seq<ConfLine>, n: nat, k: string, v: string)
    requires 0 < n <= |lines| && Lookup(Scan(ScanStart, lines[..n - 1]).params, k) == Some(v)
    requires !Reassigns(lines, n - 1, k)
    ensures Lookup(Scan(ScanStart, lines[..n]).params, k) == Some(v)
  {
    ScanPrefix(lines, n - 1);
    ScanSection(lines[..n - 1]);
    StepKeepsLookup(Scan(ScanStart, lines[..n - 1]), lines[n - 1], k, v);
  }

  /** A line that does not reassign `k` inside `[Interface]` keeps its value. */
  lemma StepKeepsLookup(st: ScanState, line: ConfLine, k: string, v: string)
    requires Lookup(st.params, k) == Some(v)
    requires line.Assignment? && line.key == k ==> !st.inInterface
    ensures Lookup(ScanStep(st, line).params, k) == Some(v)
  {
    if line.Assignment? && st.inInterface && line.key !in SkipParams {
      PutLookup(st.params, line.key, line.value, k);
    }
  }

  lemma PutOnlyAdds(d: Params, line: ConfLine, inInterface: bool, i: int)
    requires 0 <= i < |ScanStep(ScanState(d, inInterface), line).params|
    requires line.Assignment? && inInterface && line.key !in SkipParams ==>
      ScanStep(ScanState(d, inInterface), line).params[i] != (line.key, line.value)
    ensures ScanStep(ScanState(d, inInterface), line).params[i] in d
  {
    if line.Assignment? && inInterface && line.key !in SkipParams {
      PutKeepsPairs(d, line.key, line.value, i);
    }
  }

  lemma {:induction false} PutKeepsPairs(d: Params, k: string, v: string, i: int)
    requires 0 <= i < |Put(d, k, v)| && Put(d, k, v)[i] != (k, v)
    ensures Put(d, k, v)[i] in d
  {
    if d != [] && d[0].0 != k && i > 0 {
      PutKeepsPairs(d[1..], k, v, i - 1);
    }
  }

  /** `get_server_amnezia_params`: the line loop with its two variables. */
  method GetServerAmneziaParams(content: Option<string>) returns (r: Option<Params>)
    ensures r == AmneziaParams(content)
  {
    if content.None? {
      return None;
    }
    var kinds := ClassifiedConf(SplitOn(content.value, "\n"));
    var params := ScanLines(kinds);
    r := Some(params);
  }

  /** The line loop of `get_server_amnezia_params` over the classified
      lines, with its two variables. */
  method ScanLines(kinds: seq<ConfLine>) returns (params: Params)
    ensures params == Scan(ScanStart, kinds).params
  {
    params := [];
    var inInterface := false;
    for i := 0 to |kinds|
      invariant ScanState(params, inInterface) == Scan(ScanStart, kinds[..i])
    {
      ScanPrefix(kinds, i);
      params, inInterface := ScanLine(params, inInterface, kinds[i]);
    }
    assert kinds[..|kinds|] == kinds;
  }

  /** The body of the line loop: a header switches the section, and a
      `key = value` line inside `[Interface]` is stored unless skipped. */
  method ScanLine(params: Params, inInterface: bool, line: ConfLine) returns (params': Params, inInterface': bool)
    ensures ScanState(params', inInterface') == ScanStep(ScanState(params, inInterface), line)
  {
    params', inInterface' := params, inInterface;
    match line
    case Ignored =>
    case Header(isInterface) =>
      inInterface' := isInterface;
    case Assignment(k, v) =>
      if inInterface && k !in SkipParams {
        params' := Put(params, k, v);
      }
    case Plain =>
  }

  // ------------------------------------------------- `get_server_public_key`

  predicate IsKeyLine(line: string) { StartsWith(Strip(line), "PrivateKey") }

  /** The index of the first line whose stripped text starts with
      `PrivateKey`, at or after `from`; -1 when there is none. */
  function FirstKeyLine(lines: seq<string>, from: nat): (r: int)
    requires from <= |lines|
    ensures r == -1 || (from <= r < |lines| && IsKeyLine(lines[r]))
    ensures forall i :: from <= i < |lines| && (r < 0 || i < r) ==> !IsKeyLine(lines[i])
    decreases |lines| - from
  {
    if from == |lines| then -1
    else if IsKeyLine(lines[from]) then from
    else FirstKeyLine(lines, from + 1)
  }

  /** The padding step of `private_to_public_key`: `=` appended up to the
      next multiple of four characters. */
  function PadBase64(s: string): (r: string)
    ensures |r| % 4 == 0 && |s| <= |r| < |s| + 4
    ensures r[..|s|] == s && forall i :: |s| <= i < |r| ==> r[i] == '='
  {
    var missing := |s| % 4;
    if missing == 0 then s else s + seq(4 - missing, _ => '=')
  }

  /** Padding is the identity on text of a length divisible by four, and
      padding twice is padding once. */
  lemma PadBase64Idempotent(s: string)
    ensures |s| % 4 == 0 ==> PadBase64(s) == s
    ensures PadBase64(PadBase64(s)) == PadBase64(s)
  {
  }

  /** `private_to_public_key`: strip and pad, then decode and derive with
      X25519. `derive` stands for base64 decoding, the curve operation and
      base64 encoding of the result; None stands for any failure on the way. */
  function PrivateToPublicKey(privateKey: string, derive: string -> Option<string>): Option<string>
  {
    derive(PadBase64(Strip(privateKey)))
  }

  /** `get_server_public_key` given the server config file's contents (None
      when the file does not exist). A `PrivateKey` line with no `=` raises
      an IndexError, which is caught: None. */
  function ServerPublicKey(content: Option<string>, derive: string -> Option<string>): (r: Option<string>)
    ensures content.None? ==> r.None?
  {
    match content
    case None => None
    case Some(c) => KeyOfLines(SplitOn(c, "\n"), derive)
  }

  /** The key derived from the first `PrivateKey` line of `lines`. */
  function KeyOfLines(lines: seq<string>, derive: string -> Option<string>): Option<string> {
    var i := FirstKeyLine(lines, 0);
    if i < 0 then None
    else match SplitFirst(lines[i], "=")
      case None => None
      case Some((_, value)) => PrivateToPublicKey(Strip(value), derive)
  }

  /** The key is derived from the value of the first `PrivateKey` line: in a
      file whose lines are `pre` (none of them a key line), then
      `name=value` with `name` starting `PrivateKey`, then anything, the key
      is derived from `value` stripped and padded. */
  lemma ServerKeyFromFirstKeyLine(pre: seq<string>, name: string, value: string, post: seq<string>,
                                  derive: string -> Option<string>)
    requires forall i :: 0 <= i < |pre| ==> !IsKeyLine(pre[i])
    requires StartsWith(name, "PrivateKey") && '=' !in name
    requires forall l :: l in pre + [name + "=" + value] + post ==> '\n' !in l
    ensures ServerPublicKey(Some(Join(pre + [name + "=" + value] + post, "\n")), derive)
         == derive(PadBase64(Strip(Strip(value))))
  {
    var line := name + "=" + value;
    var lines := pre + [line] + post;
    SplitOnJoin(lines, '\n');
    assert lines[|pre|] == line;
    forall i | 0 <= i < |pre| ensures !IsKeyLine(lines[i]) {
      assert lines[i] == pre[i];
    }
    KeyLineOfName(name, value);
    FirstKeyLineSkips(lines, 0, |pre|);
    SplitFirstCons(name, '=', value);
    ServerKeyOfSplit(Join(lines, "\n"), lines, |pre|, name, value, derive);
  }

  lemma ServerKeyOfSplit(c: string, lines: seq<string>, k: nat, name: string, value: string,
                         derive: string -> Option<string>)
    requires SplitOn(c, "\n") == lines && k < |lines| && FirstKeyLine(lines, 0) == k
    requires SplitFirst(lines[k], "=") == Some((name, value))
    ensures ServerPublicKey(Some(c), derive) == derive(PadBase64(Strip(Strip(value))))
  {
    KeyOfValue(lines, k, name, value, derive);
  }

  lemma KeyOfValue(lines: seq<string>, k: nat, name: string, value: string, derive: string -> Option<string>)
    requires k < |lines| && FirstKeyLine(lines, 0) == k
    requires SplitFirst(lines[k], "=") == Some((name, value))
    ensures KeyOfLines(lines, derive) == derive(PadBase64(Strip(Strip(value))))
  {
    var v := SplitFirst(lines[k], "=").value.1;
    assert v == value;
    assert KeyOfLines(lines, derive) == PrivateToPublicKey(Strip(v), derive);
  }

  /** A line that starts with `PrivateKey` is a key line. */
  lemma KeyLineOfName(name: string, value: string)
    requires StartsWith(name, "PrivateKey")
    ensures IsKeyLine(name + "=" + value)
  {
    var p := "PrivateKey";
    assert (name + "=" + value)[..|p|] == name[..|p|];
    assert !IsSpace(p[0]) && !IsSpace(p[|p| - 1]);
    StartsWithStrip(name + "=" + value, p);
  }

  lemma {:induction false} FirstKeyLineSkips(lines: seq<string>, from: nat, k: nat)
    requires from <= k < |lines| && IsKeyLine(lines[k])
    requires forall i :: from <= i < k ==> !IsKeyLine(lines[i])
    ensures FirstKeyLine(lines, from) == k
    decreases k - from
  {
    if from < k {
      FirstKeyLineSkips(lines, from + 1, k);
    }
  }

  // -------------------------------------------------- `create_client_config`

  /** Why `create_client_config` raises. */
  datatype ConfigError = NoServerKey | NoAmneziaParams

  function ParamLine(p: (string, string)): string { p.0 + " = " + p.1 }

  function ParamLines(ps: Params): (r: seq<string>)
    ensures |r| == |ps| && forall i :: 0 <= i < |ps| ==> r[i] == ParamLine(ps[i])
  {
    seq(|ps|, i requires 0 <= i < |ps| => ParamLine(ps[i]))
  }

  /** The `[Interface]` block the client gets before its passthrough lines. */
  function InterfaceLines(c: Client, dns: string): seq<string> {
    ["[Interface]", "PrivateKey = " + c.privateKey, "Address = " + c.ipAddress + "/32", "DNS = " + dns]
  }

  /** The blank lines and the `[Peer]` block after the passthrough lines. */
  function PeerLines(c: Client, serverKey: string, port: int): seq<string> {
    ["", "", "[Peer]", "PublicKey = " + serverKey, "PresharedKey = " + c.presharedKey,
     "AllowedIPs = 0.0.0.0/0", "Endpoint = " + c.endpoint + ":" + IntToString(port), "PersistentKeepalive = 25"]
  }

  /** `config_lines` once complete. */
  function ConfigLines(c: Client, serverKey: string, dns: string, ps: Params, port: int): (r: seq<string>)
    ensures |r| == |ps| + 12
  {
    InterfaceLines(c, dns) + ParamLines(ps) + PeerLines(c, serverKey, port)
  }

  /** The layout of the client's file: the `[Interface]` block with its key,
      `/32` address and DNS, one `name = value` line per parameter in
      order, two blank lines, and the `[Peer]` block with the server's key,
      the preshared key, all traffic routed, the endpoint with the port and
      a keepalive of 25 seconds. */
  lemma ConfigLayout(c: Client, serverKey: string, dns: string, ps: Params, port: int)
    ensures var r := ConfigLines(c, serverKey, dns, ps, port);
      |r| == |ps| + 12
      && r[0] == "[Interface]" && r[1] == "PrivateKey = " + c.privateKey
      && r[2] == "Address = " + c.ipAddress + "/32" && r[3] == "DNS = " + dns
    ensures var r := ConfigLines(c, serverKey, dns, ps, port);
      forall i :: 0 <= i < |ps| ==> r[4 + i] == ps[i].0 + " = " + ps[i].1
    ensures var r := ConfigLines(c, serverKey, dns, ps, port); var n := |ps|;
      && r[4 + n] == "" && r[5 + n] == "" && r[6 + n] == "[Peer]"
      && r[7 + n] == "PublicKey = " + serverKey && r[8 + n] == "PresharedKey = " + c.presharedKey
      && r[9 + n] == "AllowedIPs = 0.0.0.0/0" && r[10 + n] == "Endpoint = " + c.endpoint + ":" + IntToString(port)
      && r[11 + n] == "PersistentKeepalive = 25"
  {
    ConfigHead(c, serverKey, dns, ps, port);
    ConfigParams(c, serverKey, dns, ps, port);
    ConfigTail(c, serverKey, dns, ps, port);
  }

  lemma ConfigHead(c: Client, serverKey: string, dns: string, ps: Params, port: int)
    ensures var r := ConfigLines(c, serverKey, dns, ps, port);
      r[..4] == InterfaceLines(c, dns)
  {
    var a := InterfaceLines(c, dns);
    assert (a + ParamLines(ps) + PeerLines(c, serverKey, port))[..4] == a;
  }

  lemma ConfigParams(c: Client, serverKey: string, dns: string, ps: Params, port: int)
    ensures var r := ConfigLines(c, serverKey, dns, ps, port);
      forall i :: 0 <= i < |ps| ==> r[4 + i] == ps[i].0 + " = " + ps[i].1
  {
    var a, b, z := InterfaceLines(c, dns), ParamLines(ps), PeerLines(c, serverKey, port);
    var r := a + b + z;
    assert |a| == 4;
    forall i | 0 <= i < |ps| ensures r[4 + i] == ps[i].0 + " = " + ps[i].1 {
      ConcatMiddleAt(a, b, z, i);
      assert b[i] == ParamLine(ps[i]);
    }
  }

  lemma ConcatMiddleAt<T>(a: seq<T>, b: seq<T>, z: seq<T>, i: nat)
    requires i < |b|
    ensures (a + b + z)[|a| + i] == b[i]
  {
  }

  lemma ConfigTail(c: Client, serverKey: string, dns: string, ps: Params, port: int)
    ensures var r := ConfigLines(c, serverKey, dns, ps, port);
      r[4 + |ps|..] == PeerLines(c, serverKey, port)
  {
    var x := InterfaceLines(c, dns) + ParamLines(ps);
    assert |x| == 4 + |ps|;
    assert (x + PeerLines(c, serverKey, port))[|x|..] == PeerLines(c, serverKey, port);
  }

  /** `create_client_config`. The server config file is read twice, once for
      the key and once for the passthrough parameters, so the two reads are
      separate inputs; `dns` falls back as `get_default_dns` does. */
  function ClientConfigSpec(t: Tables, c: Client, keyRead: Option<string>, paramsRead: Option<string>,
                            derive: string -> Option<string>, port: int): (r: Result<string, ConfigError>)
    ensures r == Err(NoServerKey) <==> ServerPublicKey(keyRead, derive) in {None, Some("")}
    ensures r == Err(NoAmneziaParams) <==>
      ServerPublicKey(keyRead, derive) !in {None, Some("")} && paramsRead.None?
    ensures r.Ok? ==> r.value == Join(ConfigLines(c, ServerPublicKey(keyRead, derive).value,
      SettingsService.GetDefaultDns(GetSetting(t, "default_dns")), AmneziaParams(paramsRead).value, port), "\n")
  {
    var serverKey := ServerPublicKey(keyRead, derive);
    if serverKey.None? || serverKey.value == "" then Err(NoServerKey)
    else
      var dns := SettingsService.GetDefaultDns(GetSetting(t, "default_dns"));
      match AmneziaParams(paramsRead)
      case None => Err(NoAmneziaParams)
      case Some(ps) => Ok(Join(ConfigLines(c, serverKey.value, dns, ps, port), "\n"))
  }

  predicate NoNewline(s: string) { '\n' !in s }

  lemma IntToStringNoNewline(i: int)
    ensures NoNewline(IntToString(i))
  {
    var r := IntToString(i);
    if i >= 0 {
      assert forall j :: 0 <= j < |r| ==> IsDigit(r[j]);
    } else {
      assert forall j :: 1 <= j < |r| ==> IsDigit(r[j]) by { assert r[1..] == NatToString(-i); }
    }
  }

  lemma InterfaceNoNewline(c: Client, dns: string)
    requires NoNewline(c.privateKey) && NoNewline(c.ipAddress) && NoNewline(dns)
    ensures LinesWithoutNewline(InterfaceLines(c, dns))
  {
  }

  lemma PeerNoNewline(c: Client, serverKey: string, port: int)
    requires NoNewline(serverKey) && NoNewline(c.presharedKey) && NoNewline(c.endpoint)
    ensures LinesWithoutNewline(PeerLines(c, serverKey, port))
  {
    IntToStringNoNewline(port);
  }

  /** When no field holds a line break, the config file splits back into
      exactly its lines: the layout of `ConfigLines` is what a reader of the
      file sees, line by line. */
  lemma ConfigReadsBack(c: Client, serverKey: string, dns: string, ps: Params, port: int)
    requires NoNewline(c.privateKey) && NoNewline(c.ipAddress) && NoNewline(dns) && NoNewline(serverKey)
    requires NoNewline(c.presharedKey) && NoNewline(c.endpoint)
    requires forall i :: 0 <= i < |ps| ==> NoNewline(ps[i].0) && NoNewline(ps[i].1)
    ensures SplitOn(Join(ConfigLines(c, serverKey, dns, ps, port), "\n"), "\n") == ConfigLines(c, serverKey, dns, ps, port)
  {
    var ls := ConfigLines(c, serverKey, dns, ps, port);
    ConfigNoNewline(c, serverKey, dns, ps, port);
    SplitOnJoin(ls, '\n');
  }

  /** No line of the file holds a line break when no field does. */
  lemma ConfigNoNewline(c: Client, serverKey: string, dns: string, ps: Params, port: int)
    requires NoNewline(c.privateKey) && NoNewline(c.ipAddress) && NoNewline(dns) && NoNewline(serverKey)
    requires NoNewline(c.presharedKey) && NoNewline(c.endpoint)
    requires forall i :: 0 <= i < |ps| ==> NoNewline(ps[i].0) && NoNewline(ps[i].1)
    ensures var ls := ConfigLines(c, serverKey, dns, ps, port);
      forall i :: 0 <= i < |ls| ==> '\n' !in ls[i]
  {
    var a, b, z := InterfaceLines(c, dns), ParamLines(ps), PeerLines(c, serverKey, port);
    InterfaceNoNewline(c, dns);
    PeerNoNewline(c, serverKey, port);
    assert LinesWithoutNewline(b) by {
      forall i | 0 <= i < |b| ensures NoNewline(b[i]) {
        assert b[i] == ps[i].0 + " = " + ps[i].1;
      }
    }
    NoNewlineAppend(a, b);
    NoNewlineAppend(a + b, z);
  }

  predicate LinesWithoutNewline(ls: seq<string>) {
    forall i :: 0 <= i < |ls| ==> NoNewline(ls[i])
  }

  lemma NoNewlineAppend(x: seq<string>, y: seq<string>)
    requires LinesWithoutNewline(x) && LinesWithoutNewline(y)
    ensures LinesWithoutNewline(x + y)
  {
    forall i | 0 <= i < |x + y| ensures NoNewline((x + y)[i]) {
      if i >= |x| {
        assert (x + y)[i] == y[i - |x|];
      }
    }
  }

  /** `create_client_config` as written: key, DNS, parameters, then the lines
      appended one by one. */
  method CreateClientConfig(db: Database, c: Client, keyRead: Option<string>, paramsRead: Option<string>,
                            derive: string -> Option<string>, port: int)
    returns (r: Result<string, ConfigError>)
    requires db.Valid()
    ensures r == ClientConfigSpec(db.State(), c, keyRead, paramsRead, derive, port)
  {
    var serverKey := ServerPublicKey(keyRead, derive);
    if serverKey.None? || serverKey.value == "" {
      return Err(NoServerKey);
    }
    var dns := SettingsService.GetDefaultDns(GetSetting(db.State(), "default_dns"));
    var params := GetServerAmneziaParams(paramsRead);
    if params.None? {
      return Err(NoAmneziaParams);
    }
    var ps := params.value;
    var lines := AppendParams(InterfaceLines(c, dns), ps);
    lines := lines + PeerLines(c, serverKey.value, port);
    assert lines == ConfigLines(c, serverKey.value, dns, ps, port);
    r := Ok(Join(lines, "\n"));
  }

  /** The loop that appends `name = value` for each passthrough parameter. */
  method AppendParams(start: seq<string>, ps: Params) returns (lines: seq<string>)
    ensures lines == start + ParamLines(ps)
  {
    lines := start;
    for i := 0 to |ps|
      invariant lines == start + ParamLines(ps[..i])
    {
      assert ParamLines(ps[..i + 1]) == ParamLines(ps[..i]) + [ParamLine(ps[i])];
      lines := lines + [ParamLine(ps[i])];
    }
    assert ps[..|ps|] == ps;
  }

  // ------------------------------------------------------ `awg` subprocesses

  /** A subprocess: its argument vector and what is written to its stdin. */
  datatype Command = Command(argv: seq<string>, stdin: string)

  /** What the bot tries to start, in order, and the result it reports. `run`
      tells how each attempt ends. */
  datatype Outcome = Outcome(ok: bool, commands: seq<Command>)

  function SaveCommand(iface: string): Command { Command(["awg-quick", "save", iface], "") }

  function SudoSaveCommand(iface: string): Command { Command(["sudo", "awg-quick", "save", iface], "") }

  /** `save_server_config`: the sudo attempt is made only when the
      unprivileged command ran and exited non-zero; one that cannot be
      started raises straight into the handler, which reports false. The
      result is true iff an attempt that was made exited with status 0. */
  function SaveServerConfig(iface: string, run: Command -> Exit): (r: Outcome)
    ensures |r.commands| >= 1 && r.commands[0] == SaveCommand(iface)
    ensures |r.commands| == 2 <==> run(SaveCommand(iface)).Exited? && run(SaveCommand(iface)).code != 0
    ensures |r.commands| <= 2 && (|r.commands| == 2 ==> r.commands[1] == SudoSaveCommand(iface))
    ensures r.ok <==>
      (run(SaveCommand(iface)) == Exited(0) || (run(SaveCommand(iface)).Exited? && run(SudoSaveCommand(iface)) == Exited(0)))
    ensures run(SaveCommand(iface)).NotStarted? ==> r == Outcome(false, [SaveCommand(iface)])
  {
    match run(SaveCommand(iface))
    case NotStarted => Outcome(false, [SaveCommand(iface)])
    case Exited(code) =>
      if code == 0 then Outcome(true, [SaveCommand(iface)])
      else Outcome(run(SudoSaveCommand(iface)) == Exited(0), [SaveCommand(iface), SudoSaveCommand(iface)])
  }

  function RemoveCommand(iface: string, publicKey: string): Command {
    Command(["sudo", "awg", "set", iface, "peer", publicKey, "remove"], "")
  }

  /** `remove_peer_from_server`: true iff the removal exits with status 0,
      in which case the configuration is saved (whatever the save reports);
      a removal that cannot be started reports false like a failing one. */
  function RemovePeerFromServer(iface: string, publicKey: string, run: Command -> Exit): (r: Outcome)
    ensures r.ok <==> run(RemoveCommand(iface, publicKey)) == Exited(0)
    ensures |r.commands| >= 1 && r.commands[0] == RemoveCommand(iface, publicKey)
    ensures r.ok ==> r.commands[1..] == SaveServerConfig(iface, run).commands
    ensures !r.ok ==> |r.commands| == 1
  {
    var remove := RemoveCommand(iface, publicKey);
    if run(remove) == Exited(0) then Outcome(true, [remove] + SaveServerConfig(iface, run).commands)
    else Outcome(false, [remove])
  }

  function AddCommand(iface: string, c: Client): Command {
    Command(["awg", "set", iface, "peer", c.publicKey, "preshared-key", "/dev/stdin",
             "allowed-ips", c.ipAddress + "/32"], c.presharedKey)
  }

  /** `add_peer_to_server` as it behaves: when the unprivileged command
      exits non-zero, a sudo command is started but never awaited, and the
      branch ends in an error that is caught; when it cannot be started at
      all, the handler reports false straight away. So the result is exactly
      whether the unprivileged command succeeded. */
  function AddPeerToServer(iface: string, c: Client, run: Command -> Exit): (r: Outcome)
    ensures r.ok <==> run(AddCommand(iface, c)) == Exited(0)
    ensures |r.commands| >= 1 && r.commands[0] == AddCommand(iface, c) && r.commands[0].stdin == c.presharedKey
    ensures r.ok ==> r.commands[1..] == SaveServerConfig(iface, run).commands
    ensures run(AddCommand(iface, c)).NotStarted? ==> |r.commands| == 1
    ensures run(AddCommand(iface, c)).Exited? && !r.ok ==>
      r.commands[1..] == [Command(["sudo"] + AddCommand(iface, c).argv, "")]
  {
    var add := AddCommand(iface, c);
    match run(add)
    case NotStarted => Outcome(false, [add])
    case Exited(code) =>
      if code == 0 then Outcome(true, [add] + SaveServerConfig(iface, run).commands)
      else Outcome(false, [add, Command(["sudo"] + add.argv, "")])
  }
}
