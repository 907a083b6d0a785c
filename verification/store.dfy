/** The bot's SQLite store, held in memory: the `clients` table in rowid
    (insertion) order, the `client_ip_connections` table with its
    (client_id, ip_address, date) uniqueness, the `bot_settings` key/value
    table and the AUTOINCREMENT counter. Time is whole seconds; dates are the
    'YYYY-MM-DD' strings the code formats. */
module Store {
  import opened Wrappers
  import opened PyText
  import Lists

  /** `traffic_limit` as stored in an INTEGER-affinity column: NULL, an
      integer, or text that does not read as an integer. */
  datatype Limit = NoLimit | IntLimit(bytes: int) | TextLimit(text: string)

  /** The `Client` record. `createdAt` and `expiresAt` are None for NULL. */
  datatype Client = Client(
    id: Option<int>,
    name: string,
    publicKey: string,
    privateKey: string,
    presharedKey: string,
    ipAddress: string,
    endpoint: string,
    createdAt: Option<int>,
    expiresAt: Option<int>,
    trafficLimit: Limit,
    trafficUsed: int,
    isActive: bool,
    isBlocked: bool,
    lastIp: string,
    dailyIps: string)

  /** A `client_ip_connections` row. */
  datatype IpConnection = IpConnection(
    clientId: int, ipAddress: string, connectionCount: int, firstSeen: int, lastSeen: int, date: string)

  /** One entry of `get_client_daily_ips`. */
  datatype DailyIp = DailyIp(ipAddress: string, connectionCount: int, firstSeen: int, lastSeen: int)

  /** A UNIQUE constraint rejected the statement. */
  datatype DbError = IntegrityError

  datatype Tables = Tables(
    clients: seq<Client>, connections: seq<IpConnection>, settings: map<string, string>, nextId: int)

  /** `Client(name=..., ...)` with the dataclass defaults for the rest. */
  function NewClient(name: string, publicKey: string, privateKey: string, presharedKey: string,
                     ipAddress: string, endpoint: string, expiresAt: Option<int>, trafficLimit: Limit): Client
  {
    Client(None, name, publicKey, privateKey, presharedKey, ipAddress, endpoint, None, expiresAt,
           trafficLimit, 0, true, false, "", "")
  }

  /** A limit as the INTEGER-affinity column keeps it. */
  predicate Normalized(l: Limit) {
    l.TextLimit? ==> ParseSignedDigits(l.text).None?
  }

  /** SQLite's INTEGER affinity: text that is a well-formed integer literal is
      stored as that integer; anything else is kept as given. */
  function IntegerAffinity(l: Limit): (r: Limit)
    ensures Normalized(r)
    ensures l.TextLimit? && ParseSignedDigits(l.text).Some? ==> r == IntLimit(ParseSignedDigits(l.text).value)
    ensures !(l.TextLimit? && ParseSignedDigits(l.text).Some?) ==> r == l
  {
    match l
    case TextLimit(s) => (match ParseSignedDigits(s) case Some(n) => IntLimit(n) case None => l)
    case _ => l
  }

  /** Text that is the decimal form of `n` is stored as the integer `n`. */
  lemma AffinityOfDecimalText(n: int)
    ensures IntegerAffinity(TextLimit(IntToString(n))) == IntLimit(n)
  {
    ParseSignedDigitsOfIntToString(n);
  }

  function ConnKey(c: IpConnection): (int, string, string) {
    (c.clientId, c.ipAddress, c.date)
  }

  function ClientId(c: Client): Option<int> { c.id }
  function ClientName(c: Client): string { c.name }
  function ClientIp(c: Client): string { c.ipAddress }

  /** What every stored row satisfies: an id below the AUTOINCREMENT counter,
      the `created_at` default filled in, a limit as the column keeps it. */
  predicate WellStored(c: Client, nextId: int) {
    c.id.Some? && 1 <= c.id.value < nextId && c.createdAt.Some? && Normalized(c.trafficLimit)
  }

  /** The table constraints: PRIMARY KEY id, UNIQUE name, UNIQUE ip_address,
      UNIQUE(client_id, ip_address, date). */
  predicate ValidTables(t: Tables) {
    t.nextId >= 1
    && (forall i :: 0 <= i < |t.clients| ==> WellStored(t.clients[i], t.nextId))
    && Lists.KeysDistinct(t.clients, ClientId)
    && Lists.KeysDistinct(t.clients, ClientName)
    && Lists.KeysDistinct(t.clients, ClientIp)
    && Lists.KeysDistinct(t.connections, ConnKey)
  }

  // ---------------------------------------------------------------- queries

  /** Position of the row whose id is `id`, or -1. */
  function IndexOfId(cs: seq<Client>, id: int): (r: int)
    ensures -1 <= r < |cs|
    ensures r >= 0 ==> cs[r].id == Some(id)
    ensures r < 0 <==> forall i :: 0 <= i < |cs| ==> cs[i].id != Some(id)
  {
    if cs == [] then -1
    else if cs[0].id == Some(id) then 0
    else
      var k := IndexOfId(cs[1..], id);
      assert forall i :: 1 <= i < |cs| ==> cs[i] == cs[1..][i - 1];
      if k < 0 then -1 else k + 1
  }

  /** `get_client(id)`. */
  function GetClient(t: Tables, id: int): (r: Option<Client>)
    ensures r.Some? ==> r.value in t.clients && r.value.id == Some(id)
    ensures r.None? <==> forall i :: 0 <= i < |t.clients| ==> t.clients[i].id != Some(id)
  {
    var i := IndexOfId(t.clients, id);
    if i < 0 then None else Some(t.clients[i])
  }

  predicate NameTaken(cs: seq<Client>, name: string) {
    exists i :: 0 <= i < |cs| && cs[i].name == name
  }

  predicate IpTaken(cs: seq<Client>, ip: string) {
    exists i :: 0 <= i < |cs| && cs[i].ipAddress == ip
  }

  /** `get_client_by_name(name)`: the row with that name, if any. */
  function GetClientByName(t: Tables, name: string): (r: Option<Client>)
    ensures r.Some? ==> r.value in t.clients && r.value.name == name
    ensures r.None? <==> !NameTaken(t.clients, name)
    decreases |t.clients|
  {
    if t.clients == [] then None
    else if t.clients[0].name == name then Some(t.clients[0])
    else
      var rest := GetClientByName(t.(clients := t.clients[1..]), name);
      assert forall i :: 1 <= i < |t.clients| ==> t.clients[i] == t.clients[1..][i - 1];
      rest
  }

  function CreatedKey(c: Client): int {
    if c.createdAt.Some? then c.createdAt.value else 0
  }

  /** `get_all_clients()`: `ORDER BY created_at DESC`, ties in rowid order. */
  function GetAllClients(t: Tables): (r: seq<Client>)
    ensures Lists.SortedDesc(r, CreatedKey)
    ensures multiset(r) == multiset(t.clients)
  {
    Lists.SortDesc(t.clients, CreatedKey)
  }

  function ExpiredBefore(now: int): Client -> bool {
    (c: Client) => c.expiresAt.Some? && c.expiresAt.value < now
  }

  /** `get_expired_clients()` at time `now`. */
  function GetExpiredClients(t: Tables, now: int): seq<Client> {
    Lists.Filter(t.clients, ExpiredBefore(now))
  }

  /** `traffic_used >= traffic_limit` in SQLite: an integer compares with an
      integer; an integer is below any text, so a text limit never matches. */
  function QuotaReached(c: Client): bool {
    c.trafficLimit.IntLimit? && c.trafficUsed >= c.trafficLimit.bytes
  }

  /** `get_traffic_exceeded_clients()`. */
  function GetTrafficExceededClients(t: Tables): seq<Client> {
    Lists.Filter(t.clients, QuotaReached)
  }

  /** The expiry query returns exactly the rows with a non-NULL `expires_at`
      before `now`, blocked or not. */
  lemma GetExpiredClientsMembers(t: Tables, now: int, c: Client)
    ensures c in GetExpiredClients(t, now) <==> c in t.clients && c.expiresAt.Some? && c.expiresAt.value < now
  {
  }

  /** The quota query returns exactly the rows with an integer limit that the
      usage has reached; a NULL or text limit never qualifies. */
  lemma GetTrafficExceededClientsMembers(t: Tables, c: Client)
    ensures c in GetTrafficExceededClients(t) <==>
      c in t.clients && c.trafficLimit.IntLimit? && c.trafficUsed >= c.trafficLimit.bytes
  {
  }

  function OnDay(clientId: int, date: string): IpConnection -> bool {
    (c: IpConnection) => c.clientId == clientId && c.date == date
  }

  function LastSeenKey(c: IpConnection): int { c.lastSeen }

  function AsDailyIp(c: IpConnection): DailyIp {
    DailyIp(c.ipAddress, c.connectionCount, c.firstSeen, c.lastSeen)
  }

  /** `get_client_daily_ips(client_id, date)`: that client's rows for that
      date, most recently seen first. */
  function GetClientDailyIps(t: Tables, clientId: int, date: string): (r: seq<DailyIp>)
    ensures forall i, j :: 0 <= i < j < |r| ==> r[i].lastSeen >= r[j].lastSeen
    ensures |r| == |Lists.Filter(t.connections, OnDay(clientId, date))|
    ensures forall i :: 0 <= i < |r| ==> exists c :: c in t.connections && OnDay(clientId, date)(c) && r[i] == AsDailyIp(c)
  {
    var rows := Lists.SortDesc(Lists.Filter(t.connections, OnDay(clientId, date)), LastSeenKey);
    forall i | 0 <= i < |rows| ensures rows[i] in Lists.Filter(t.connections, OnDay(clientId, date)) {
      assert rows[i] in multiset(rows);
    }
    seq(|rows|, i requires 0 <= i < |rows| => AsDailyIp(rows[i]))
  }

  /** `get_setting(key)`. */
  function GetSetting(t: Tables, key: string): (r: Option<string>)
    ensures r.Some? <==> key in t.settings
    ensures r.Some? ==> r.value == t.settings[key]
  {
    if key in t.settings then Some(t.settings[key]) else None
  }

  // ------------------------------------------------- what the statements do

  const DefaultDns := "1.1.1.1, 8.8.8.8"

  /** `init_db`'s `INSERT OR IGNORE` of the two default settings. */
  function InitDbSpec(t: Tables): (r: Tables)
    ensures r.clients == t.clients && r.connections == t.connections && r.nextId == t.nextId
    ensures forall k :: k in t.settings ==> k in r.settings && r.settings[k] == t.settings[k]
    ensures GetSetting(r, "default_dns").Some? && GetSetting(r, "default_endpoint").Some?
  {
    var s1 := if "default_dns" in t.settings then t.settings else t.settings["default_dns" := DefaultDns];
    var s2 := if "default_endpoint" in s1 then s1 else s1["default_endpoint" := ""];
    t.(settings := s2)
  }

  /** The row `add_client` inserts: every given column but `traffic_used`,
      `created_at` and `id`, which come from the schema defaults and the
      AUTOINCREMENT counter. */
  function Inserted(c: Client, id: int, now: int): Client {
    c.(id := Some(id), createdAt := Some(now), trafficUsed := 0, trafficLimit := IntegerAffinity(c.trafficLimit))
  }

  /** `add_client(c)` at time `now`: the new state and the new row's id, or
      the UNIQUE violation on name or ip_address. */
  function AddClientSpec(t: Tables, c: Client, now: int): (Tables, Result<int, DbError>) {
    if NameTaken(t.clients, c.name) || IpTaken(t.clients, c.ipAddress) then (t, Err(IntegrityError))
    else (t.(clients := t.clients + [Inserted(c, t.nextId, now)], nextId := t.nextId + 1), Ok(t.nextId))
  }

  /** The row after `update_client(c)` has written its nine columns. */
  function Written(row: Client, c: Client): Client {
    row.(name := c.name, endpoint := c.endpoint, expiresAt := c.expiresAt,
         trafficLimit := IntegerAffinity(c.trafficLimit), trafficUsed := c.trafficUsed,
         isActive := c.isActive, isBlocked := c.isBlocked, lastIp := c.lastIp, dailyIps := c.dailyIps)
  }

  predicate NameTakenByOther(cs: seq<Client>, name: string, i: int) {
    exists j :: 0 <= j < |cs| && j != i && cs[j].name == name
  }

  /** `update_client(c)`: `WHERE id = c.id` (NULL matches nothing); Ok(true)
      iff a row matched; a name held by another row violates UNIQUE. */
  function UpdateClientSpec(t: Tables, c: Client): (Tables, Result<bool, DbError>) {
    var i := if c.id.Some? then IndexOfId(t.clients, c.id.value) else -1;
    if i < 0 then (t, Ok(false))
    else if NameTakenByOther(t.clients, c.name, i) then (t, Err(IntegrityError))
    else (t.(clients := t.clients[i := Written(t.clients[i], c)]), Ok(true))
  }

  function NotClient(id: int): Client -> bool { (c: Client) => c.id != Some(id) }

  function NotOwnedBy(id: int): IpConnection -> bool { (c: IpConnection) => c.clientId != id }

  /** `delete_client(id)`: that client's connection rows, then its row. */
  function DeleteClientSpec(t: Tables, id: int): (Tables, bool) {
    (t.(clients := Lists.Filter(t.clients, NotClient(id)), connections := Lists.Filter(t.connections, NotOwnedBy(id))),
     GetClient(t, id).Some?)
  }

  /** Position of the connection row with this key, or -1. */
  function IndexOfConnection(cs: seq<IpConnection>, key: (int, string, string)): (r: int)
    ensures -1 <= r < |cs|
    ensures r >= 0 ==> ConnKey(cs[r]) == key
    ensures r < 0 <==> forall i :: 0 <= i < |cs| ==> ConnKey(cs[i]) != key
  {
    if cs == [] then -1
    else if ConnKey(cs[0]) == key then 0
    else
      var k := IndexOfConnection(cs[1..], key);
      assert forall i :: 1 <= i < |cs| ==> cs[i] == cs[1..][i - 1];
      if k < 0 then -1 else k + 1
  }

  /** `add_client_ip_connection(client_id, ip)` on day `today` at time `now`:
      the UPDATE bumps the count of an existing row; when it matched nothing,
      a row with count 1 is inserted. */
  function AddConnectionSpec(t: Tables, clientId: int, ip: string, today: string, now: int): Tables {
    var k := IndexOfConnection(t.connections, (clientId, ip, today));
    if k >= 0 then
      t.(connections := t.connections[k := t.connections[k].(connectionCount := t.connections[k].connectionCount + 1, lastSeen := now)])
    else
      t.(connections := t.connections + [IpConnection(clientId, ip, 1, now, now, today)])
  }

  function NotBefore(cutoff: string): IpConnection -> bool { (c: IpConnection) => !StrLess(c.date, cutoff) }

  /** `cleanup_old_ip_connections`: `DELETE ... WHERE date < cutoff`. */
  function CleanupSpec(t: Tables, cutoff: string): Tables {
    t.(connections := Lists.Filter(t.connections, NotBefore(cutoff)))
  }

  // ------------------------------------------------ what the statements keep

  lemma {:induction false} FilterKeepsWellStored(s: seq<Client>, p: Client -> bool, nextId: int)
    requires forall i :: 0 <= i < |s| ==> WellStored(s[i], nextId)
    ensures forall i :: 0 <= i < |Lists.Filter(s, p)| ==> WellStored(Lists.Filter(s, p)[i], nextId)
  {
    var r := Lists.Filter(s, p);
    forall i | 0 <= i < |r| ensures WellStored(r[i], nextId) {
      assert r[i] in s;
    }
  }

  /** `add_client` keeps the constraints and fails exactly on a taken name or
      address. */
  lemma AddClientSpecValid(t: Tables, c: Client, now: int)
    requires ValidTables(t)
    ensures ValidTables(AddClientSpec(t, c, now).0)
    ensures AddClientSpec(t, c, now).1.Err? <==> NameTaken(t.clients, c.name) || IpTaken(t.clients, c.ipAddress)
  {
    var (t', r) := AddClientSpec(t, c, now);
    if r.Ok? {
      var cs, n := t'.clients, |t.clients|;
      assert cs[n] == Inserted(c, t.nextId, now);
      forall i | 0 <= i < n ensures cs[i] == t.clients[i] && cs[i].id != cs[n].id
        && cs[i].name != cs[n].name && cs[i].ipAddress != cs[n].ipAddress {
        assert WellStored(t.clients[i], t.nextId);
      }
      assert Lists.KeysDistinct(cs, ClientId) by {
        forall i, j | 0 <= i < |cs| && 0 <= j < |cs| && ClientId(cs[i]) == ClientId(cs[j]) ensures i == j {
          if i < n && j < n { assert ClientId(t.clients[i]) == ClientId(t.clients[j]); }
        }
      }
      assert Lists.KeysDistinct(cs, ClientName) by {
        forall i, j | 0 <= i < |cs| && 0 <= j < |cs| && ClientName(cs[i]) == ClientName(cs[j]) ensures i == j {
          if i < n && j < n { assert ClientName(t.clients[i]) == ClientName(t.clients[j]); }
        }
      }
      assert Lists.KeysDistinct(cs, ClientIp) by {
        forall i, j | 0 <= i < |cs| && 0 <= j < |cs| && ClientIp(cs[i]) == ClientIp(cs[j]) ensures i == j {
          if i < n && j < n { assert ClientIp(t.clients[i]) == ClientIp(t.clients[j]); }
        }
      }
    }
  }

  /** A successful `add_client` appends one row carrying the given columns,
      an id no row had, `created_at = now` and `traffic_used = 0`, and leaves
      every other row, the connections and the settings as they were. */
  lemma AddClientSpecInserts(t: Tables, c: Client, now: int)
    requires ValidTables(t) && AddClientSpec(t, c, now).1.Ok?
    ensures var (t', id) := (AddClientSpec(t, c, now).0, AddClientSpec(t, c, now).1.value);
      GetClient(t, id).None?
      && GetClient(t', id) == Some(Inserted(c, id, now))
      && (forall other :: other != id ==> GetClient(t', other) == GetClient(t, other))
      && t'.connections == t.connections && t'.settings == t.settings
  {
    var (t', r) := AddClientSpec(t, c, now);
    var id := r.value;
    forall i | 0 <= i < |t.clients| ensures t.clients[i].id != Some(id) {
      assert WellStored(t.clients[i], t.nextId);
    }
    assert t'.clients == t.clients + [Inserted(c, id, now)];
    IndexOfIdAppend(t.clients, Inserted(c, id, now), id);
    forall other | other != id ensures GetClient(t', other) == GetClient(t, other) {
      IndexOfIdAppend(t.clients, Inserted(c, id, now), other);
    }
  }

  lemma {:induction false} IndexOfIdAppend(cs: seq<Client>, c: Client, id: int)
    ensures c.id != Some(id) ==> IndexOfId(cs + [c], id) == IndexOfId(cs, id)
    ensures c.id == Some(id) && IndexOfId(cs, id) < 0 ==> IndexOfId(cs + [c], id) == |cs|
  {
    if cs != [] {
      assert (cs + [c])[1..] == cs[1..] + [c];
      IndexOfIdAppend(cs[1..], c, id);
    }
  }

  /** With ids unique, the row found by id is the only row with that id. */
  lemma GetClientUnique(t: Tables, i: int)
    requires ValidTables(t) && 0 <= i < |t.clients|
    ensures GetClient(t, t.clients[i].id.value) == Some(t.clients[i])
  {
    var k := IndexOfId(t.clients, t.clients[i].id.value);
    assert ClientId(t.clients[k]) == ClientId(t.clients[i]);
  }

  /** With names unique, the row found by name is the only row with that name. */
  lemma GetClientByNameIs(t: Tables, j: int)
    requires ValidTables(t) && 0 <= j < |t.clients|
    ensures GetClientByName(t, t.clients[j].name) == Some(t.clients[j])
  {
    var r := GetClientByName(t, t.clients[j].name);
    var k :| 0 <= k < |t.clients| && t.clients[k] == r.value;
    assert ClientName(t.clients[k]) == ClientName(t.clients[j]);
  }

  /** The columns `update_client` writes come from `c`; every other column
      (id, keys, preshared key, address, creation time) stays as stored. */
  lemma WrittenColumns(row: Client, c: Client)
    ensures var w := Written(row, c);
      w.id == row.id && w.publicKey == row.publicKey && w.privateKey == row.privateKey
      && w.presharedKey == row.presharedKey && w.ipAddress == row.ipAddress && w.createdAt == row.createdAt
      && w.name == c.name && w.endpoint == c.endpoint && w.expiresAt == c.expiresAt
      && w.trafficUsed == c.trafficUsed && w.isActive == c.isActive && w.isBlocked == c.isBlocked
      && w.lastIp == c.lastIp && w.dailyIps == c.dailyIps
      && w.trafficLimit == IntegerAffinity(c.trafficLimit)
  {
  }

  /** `update_client` keeps the constraints. It reports Ok(false) and changes
      nothing when no row has `c.id`, fails and changes nothing when another
      row holds the new name, and otherwise reports Ok(true). */
  lemma UpdateClientSpecOutcome(t: Tables, c: Client)
    requires ValidTables(t)
    ensures ValidTables(UpdateClientSpec(t, c).0)
    ensures UpdateClientSpec(t, c).1 == Ok(false) <==> c.id.None? || GetClient(t, c.id.value).None?
    ensures UpdateClientSpec(t, c).1 != Ok(true) ==> UpdateClientSpec(t, c).0 == t
    ensures UpdateClientSpec(t, c).1.Err? <==>
      c.id.Some? && GetClient(t, c.id.value).Some? && GetClientByName(t, c.name).Some?
      && GetClientByName(t, c.name).value.id != c.id
  {
    if c.id.Some? {
      var i := IndexOfId(t.clients, c.id.value);
      if i >= 0 {
        var byName := GetClientByName(t, c.name);
        if NameTakenByOther(t.clients, c.name, i) {
          var j :| 0 <= j < |t.clients| && j != i && t.clients[j].name == c.name;
          GetClientByNameIs(t, j);
          assert ClientId(t.clients[j]) != ClientId(t.clients[i]);
        } else {
          if byName.Some? {
            var j :| 0 <= j < |t.clients| && t.clients[j] == byName.value;
            assert j == i;
          }
          UpdateKeepsValid(t, c, i);
        }
      }
    }
  }

  /** A successful `update_client` rewrites the matching row as `Written`
      and touches no other row, the connections or the id counter. */
  lemma UpdateClientSpecWrites(t: Tables, c: Client)
    requires ValidTables(t) && UpdateClientSpec(t, c).1 == Ok(true)
    ensures c.id.Some? && GetClient(t, c.id.value).Some?
    ensures var t' := UpdateClientSpec(t, c).0;
      GetClient(t', c.id.value) == Some(Written(GetClient(t, c.id.value).value, c))
      && (forall other :: other != c.id.value ==> GetClient(t', other) == GetClient(t, other))
      && t'.connections == t.connections && t'.nextId == t.nextId
  {
    var t' := UpdateClientSpec(t, c).0;
    var i := IndexOfId(t.clients, c.id.value);
    UpdateKeepsValid(t, c, i);
    GetClientUnique(t', i);
    forall other | other != c.id.value ensures GetClient(t', other) == GetClient(t, other) {
      IndexOfIdUpdate(t.clients, i, Written(t.clients[i], c), other);
    }
  }

  lemma UpdateKeepsValid(t: Tables, c: Client, i: int)
    requires ValidTables(t) && 0 <= i < |t.clients|
    requires !NameTakenByOther(t.clients, c.name, i)
    ensures ValidTables(t.(clients := t.clients[i := Written(t.clients[i], c)]))
  {
    var cs := t.clients[i := Written(t.clients[i], c)];
    assert Lists.KeysDistinct(cs, ClientId) by {
      forall a, b | 0 <= a < |cs| && 0 <= b < |cs| && ClientId(cs[a]) == ClientId(cs[b]) ensures a == b {
        assert ClientId(t.clients[a]) == ClientId(t.clients[b]);
      }
    }
    assert Lists.KeysDistinct(cs, ClientIp) by {
      forall a, b | 0 <= a < |cs| && 0 <= b < |cs| && ClientIp(cs[a]) == ClientIp(cs[b]) ensures a == b {
        assert ClientIp(t.clients[a]) == ClientIp(t.clients[b]);
      }
    }
    assert Lists.KeysDistinct(cs, ClientName) by {
      forall a, b | 0 <= a < |cs| && 0 <= b < |cs| && ClientName(cs[a]) == ClientName(cs[b]) ensures a == b {
        if a != i && b != i { assert ClientName(t.clients[a]) == ClientName(t.clients[b]); }
      }
    }
  }

  lemma {:induction false} IndexOfIdUpdate(cs: seq<Client>, i: int, row: Client, id: int)
    requires 0 <= i < |cs| && row.id == cs[i].id
    ensures IndexOfId(cs[i := row], id) == IndexOfId(cs, id)
  {
    if i > 0 {
      assert cs[i := row][1..] == cs[1..][i - 1 := row];
      IndexOfIdUpdate(cs[1..], i - 1, row, id);
    }
  }

  /** `delete_client` keeps the constraints, leaves neither the client nor any
      of its connection rows, keeps every other client and every other
      client's connection rows, and reports whether the client existed. */
  lemma DeleteClientSpecCorrect(t: Tables, id: int)
    requires ValidTables(t)
    ensures ValidTables(DeleteClientSpec(t, id).0)
    ensures DeleteClientSpec(t, id).1 <==> GetClient(t, id).Some?
    ensures GetClient(DeleteClientSpec(t, id).0, id).None?
    ensures forall c :: c in DeleteClientSpec(t, id).0.connections ==> c.clientId != id
    ensures forall c :: c in t.clients && c.id != Some(id) ==> c in DeleteClientSpec(t, id).0.clients
    ensures forall c :: c in t.connections && c.clientId != id ==> c in DeleteClientSpec(t, id).0.connections
  {
    var t' := DeleteClientSpec(t, id).0;
    FilterKeepsWellStored(t.clients, NotClient(id), t.nextId);
    Lists.FilterKeepsDistinct(t.clients, NotClient(id), ClientId);
    Lists.FilterKeepsDistinct(t.clients, NotClient(id), ClientName);
    Lists.FilterKeepsDistinct(t.clients, NotClient(id), ClientIp);
    Lists.FilterKeepsDistinct(t.connections, NotOwnedBy(id), ConnKey);
    forall i | 0 <= i < |t'.clients| ensures t'.clients[i].id != Some(id) {
      assert t'.clients[i] in t'.clients;
    }
  }

  /** The connection counter as a function of its key: 0 when there is no row. */
  function CountOf(t: Tables, key: (int, string, string)): int {
    var k := IndexOfConnection(t.connections, key);
    if k < 0 then 0 else t.connections[k].connectionCount
  }

  /** `add_client_ip_connection` is an upsert-increment: the key's counter goes
      up by one (a new row starts at 1 with first and last seen `now`, an
      existing row keeps its first-seen time and gets last seen `now`), every
      other key's row is unchanged, and keys stay unique. */
  lemma AddConnectionSpecCorrect(t: Tables, clientId: int, ip: string, today: string, now: int)
    requires ValidTables(t)
    ensures var t' := AddConnectionSpec(t, clientId, ip, today, now);
      ValidTables(t')
      && t'.clients == t.clients
      && (CountOf(t, (clientId, ip, today)) == 0 ==> CountOf(t', (clientId, ip, today)) == 1)
      && (IndexOfConnection(t.connections, (clientId, ip, today)) >= 0 ==>
            CountOf(t', (clientId, ip, today)) == CountOf(t, (clientId, ip, today)) + 1)
      && IndexOfConnection(t'.connections, (clientId, ip, today)) >= 0
      && t'.connections[IndexOfConnection(t'.connections, (clientId, ip, today))].lastSeen == now
      && (IndexOfConnection(t.connections, (clientId, ip, today)) < 0 ==>
            t'.connections[IndexOfConnection(t'.connections, (clientId, ip, today))].firstSeen == now)
      && (IndexOfConnection(t.connections, (clientId, ip, today)) >= 0 ==>
            t'.connections[IndexOfConnection(t'.connections, (clientId, ip, today))].firstSeen
              == t.connections[IndexOfConnection(t.connections, (clientId, ip, today))].firstSeen)
      && (forall key :: key != (clientId, ip, today) ==> CountOf(t', key) == CountOf(t, key))
  {
    var key := (clientId, ip, today);
    var t' := AddConnectionSpec(t, clientId, ip, today, now);
    var k := IndexOfConnection(t.connections, key);
    if k >= 0 {
      var cs' := t'.connections;
      assert Lists.KeysDistinct(cs', ConnKey) by {
        forall a, b | 0 <= a < |cs'| && 0 <= b < |cs'| && ConnKey(cs'[a]) == ConnKey(cs'[b]) ensures a == b {
          assert ConnKey(t.connections[a]) == ConnKey(t.connections[b]);
        }
      }
      ConnectionIndexUnique(t'.connections, k);
      forall other | other != key ensures CountOf(t', other) == CountOf(t, other) {
        IndexOfConnectionUpdate(t.connections, k, cs'[k], other);
      }
    } else {
      var cs' := t'.connections;
      var n := |t.connections|;
      assert cs'[n] == IpConnection(clientId, ip, 1, now, now, today);
      assert Lists.KeysDistinct(cs', ConnKey) by {
        forall a, b | 0 <= a < |cs'| && 0 <= b < |cs'| && ConnKey(cs'[a]) == ConnKey(cs'[b]) ensures a == b {
          if a < n && b < n { assert ConnKey(t.connections[a]) == ConnKey(t.connections[b]); }
        }
      }
      ConnectionIndexUnique(cs', n);
      forall other | other != key ensures CountOf(t', other) == CountOf(t, other) {
        IndexOfConnectionAppend(t.connections, cs'[|t.connections|], other);
      }
    }
  }

  lemma ConnectionIndexUnique(cs: seq<IpConnection>, k: int)
    requires 0 <= k < |cs| && Lists.KeysDistinct(cs, ConnKey)
    ensures IndexOfConnection(cs, ConnKey(cs[k])) == k
  {
    var r := IndexOfConnection(cs, ConnKey(cs[k]));
    assert ConnKey(cs[r]) == ConnKey(cs[k]);
  }

  lemma {:induction false} IndexOfConnectionUpdate(cs: seq<IpConnection>, i: int, row: IpConnection, key: (int, string, string))
    requires 0 <= i < |cs| && ConnKey(row) == ConnKey(cs[i])
    ensures IndexOfConnection(cs[i := row], key) == IndexOfConnection(cs, key)
  {
    if i > 0 {
      assert cs[i := row][1..] == cs[1..][i - 1 := row];
      IndexOfConnectionUpdate(cs[1..], i - 1, row, key);
    }
  }

  lemma {:induction false} IndexOfConnectionAppend(cs: seq<IpConnection>, c: IpConnection, key: (int, string, string))
    requires ConnKey(c) != key
    ensures IndexOfConnection(cs + [c], key) == IndexOfConnection(cs, key)
  {
    if cs != [] {
      assert (cs + [c])[1..] == cs[1..] + [c];
      IndexOfConnectionAppend(cs[1..], c, key);
    }
  }

  /** Pruning keeps exactly the rows whose date is not before the cutoff. */
  lemma CleanupSpecCorrect(t: Tables, cutoff: string)
    requires ValidTables(t)
    ensures ValidTables(CleanupSpec(t, cutoff))
    ensures forall c :: c in CleanupSpec(t, cutoff).connections <==> c in t.connections && !StrLess(c.date, cutoff)
    ensures CleanupSpec(t, cutoff).clients == t.clients
  {
    Lists.FilterKeepsDistinct(t.connections, NotBefore(cutoff), ConnKey);
  }

  /** The daily list holds one entry per row of that client and date. */
  lemma GetClientDailyIpsComplete(t: Tables, clientId: int, date: string, c: IpConnection)
    requires c in t.connections && c.clientId == clientId && c.date == date
    ensures AsDailyIp(c) in GetClientDailyIps(t, clientId, date)
  {
    var filtered := Lists.Filter(t.connections, OnDay(clientId, date));
    var rows := Lists.SortDesc(filtered, LastSeenKey);
    assert c in filtered;
    Lists.SortDescMembers(filtered, LastSeenKey, c);
    var i :| 0 <= i < |rows| && rows[i] == c;
    assert GetClientDailyIps(t, clientId, date)[i] == AsDailyIp(c);
  }

  // ------------------------------------------------------------- the store

  /** The store, whose methods change its tables in place. */
  class Database {
    var clients: seq<Client>
    var connections: seq<IpConnection>
    var settings: map<string, string>
    var nextId: int

    function State(): Tables
      reads this
    {
      Tables(clients, connections, settings, nextId)
    }

    predicate Valid()
      reads this
    {
      ValidTables(State())
    }

    /** An empty database file. */
    constructor ()
      ensures State() == Tables([], [], map[], 1)
      ensures Valid()
    {
      clients := [];
      connections := [];
      settings := map[];
      nextId := 1;
    }

    /** `init_db`: the tables exist; the default settings are inserted unless present. */
    method InitDb()
      requires Valid()
      modifies this
      ensures Valid()
      ensures State() == InitDbSpec(old(State()))
    {
      if "default_dns" !in settings {
        settings := settings["default_dns" := DefaultDns];
      }
      if "default_endpoint" !in settings {
        settings := settings["default_endpoint" := ""];
      }
    }

    /** `set_setting(key, value)`: INSERT OR REPLACE; reports success. */
    method SetSetting(key: string, value: string) returns (ok: bool)
      requires Valid()
      modifies this
      ensures Valid() && ok
      ensures State() == old(State()).(settings := old(settings)[key := value])
    {
      settings := settings[key := value];
      ok := true;
    }

    /** `add_client(c)` at time `now`. */
    method AddClient(c: Client, now: int) returns (r: Result<int, DbError>)
      requires Valid()
      modifies this
      ensures Valid()
      ensures (State(), r) == AddClientSpec(old(State()), c, now)
    {
      AddClientSpecValid(State(), c, now);
      if NameTaken(clients, c.name) || IpTaken(clients, c.ipAddress) {
        return Err(IntegrityError);
      }
      clients := clients + [Inserted(c, nextId, now)];
      r := Ok(nextId);
      nextId := nextId + 1;
    }

    /** `update_client(c)`. */
    method UpdateClient(c: Client) returns (r: Result<bool, DbError>)
      requires Valid()
      modifies this
      ensures Valid()
      ensures (State(), r) == UpdateClientSpec(old(State()), c)
    {
      UpdateClientSpecOutcome(State(), c);
      var i := if c.id.Some? then IndexOfId(clients, c.id.value) else -1;
      if i < 0 {
        return Ok(false);
      }
      if NameTakenByOther(clients, c.name, i) {
        return Err(IntegrityError);
      }
      clients := clients[i := Written(clients[i], c)];
      r := Ok(true);
    }

    /** `delete_client(id)`. */
    method DeleteClient(id: int) returns (found: bool)
      requires Valid()
      modifies this
      ensures Valid()
      ensures (State(), found) == DeleteClientSpec(old(State()), id)
    {
      DeleteClientSpecCorrect(State(), id);
      found := GetClient(State(), id).Some?;
      connections := Lists.Filter(connections, NotOwnedBy(id));
      clients := Lists.Filter(clients, NotClient(id));
    }

    /** `add_client_ip_connection(client_id, ip)` on `today` at `now`. */
    method AddClientIpConnection(clientId: int, ip: string, today: string, now: int)
      requires Valid()
      modifies this
      ensures Valid()
      ensures State() == AddConnectionSpec(old(State()), clientId, ip, today, now)
    {
      AddConnectionSpecCorrect(State(), clientId, ip, today, now);
      var k := IndexOfConnection(connections, (clientId, ip, today));
      if k >= 0 {
        connections := connections[k := connections[k].(connectionCount := connections[k].connectionCount + 1, lastSeen := now)];
      } else {
        connections := connections + [IpConnection(clientId, ip, 1, now, now, today)];
      }
    }

    /** `cleanup_old_ip_connections` with the cutoff date already computed. */
    method CleanupOldIpConnections(cutoff: string)
      requires Valid()
      modifies this
      ensures Valid()
      ensures State() == CleanupSpec(old(State()), cutoff)
    {
      CleanupSpecCorrect(State(), cutoff);
      connections := Lists.Filter(connections, NotBefore(cutoff));
    }
  }
}
