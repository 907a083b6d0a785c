/** The backup service: a zip archive per backup in the backup directory,
    holding `clients.json` with one record per client; restoring one
    replaces every client of the database with the archive's records. */
module Backups {
  import opened Wrappers
  import opened PyText
  import opened Store
  import Lists
  import Formatters

  // ---------------------------------------------------------------- records

  /** One entry of the `clients` list in `clients.json`: eleven fields, and
      no preshared key, last address or id. Dates are kept as the instants
      their ISO text stands for. */
  datatype Record = Record(
    name: string, publicKey: string, privateKey: string, ipAddress: string, endpoint: string,
    createdAt: Option<int>, expiresAt: Option<int>, trafficLimit: Limit, trafficUsed: int,
    isActive: bool, isBlocked: bool)

  /** The record `create_backup` writes for a client. */
  function ToRecord(c: Client): Record {
    Record(c.name, c.publicKey, c.privateKey, c.ipAddress, c.endpoint, c.createdAt, c.expiresAt,
           c.trafficLimit, c.trafficUsed, c.isActive, c.isBlocked)
  }

  function RecordsOf(cs: seq<Client>): (r: seq<Record>)
    ensures |r| == |cs| && forall i :: 0 <= i < |cs| ==> r[i] == ToRecord(cs[i])
  {
    seq(|cs|, i requires 0 <= i < |cs| => ToRecord(cs[i]))
  }

  /** Records as `restore_backup` meets them: each one readable (Some), or
      lacking a field or holding a date it cannot parse (None). */
  function Wrap(rs: seq<Record>): (r: seq<Option<Record>>)
    ensures |r| == |rs|
  {
    if rs == [] then [] else [Some(rs[0])] + Wrap(rs[1..])
  }

  /** The client `restore_backup` builds from a record: the dataclass
      defaults stand for the preshared key, the last address and the daily
      addresses, and there is no id and no creation time. */
  function Restored(r: Record): Client {
    Client(None, r.name, r.publicKey, r.privateKey, "", r.ipAddress, r.endpoint, None, r.expiresAt,
           r.trafficLimit, r.trafficUsed, r.isActive, r.isBlocked, "", "")
  }

  // ------------------------------------------------------------- directory

  /** What `json.loads` makes of `clients.json`: bytes that do not decode,
      or an object whose `clients` key may be missing. */
  datatype Document = Undecodable | Decoded(clients: Option<seq<Option<Record>>>)

  /** A backup file: not a zip archive at all, or one with or without a
      `clients.json` member. */
  datatype Archive = NotAZip | Zip(clientsJson: Option<Document>)

  datatype BackupFile = BackupFile(size: nat, ctime: int, archive: Archive)

  datatype DirEntry = DirEntry(name: string, file: BackupFile)

  function EntryName(e: DirEntry): string { e.name }

  /** Position of the entry called `name`, or -1. */
  function IndexOfName(es: seq<DirEntry>, name: string): (k: int)
    ensures -1 <= k < |es|
    ensures k >= 0 ==> es[k].name == name
    ensures k < 0 <==> forall i :: 0 <= i < |es| ==> es[i].name != name
  {
    if es == [] then -1
    else if es[0].name == name then 0
    else
      var k := IndexOfName(es[1..], name);
      assert forall i :: 1 <= i < |es| ==> es[i] == es[1..][i - 1];
      if k < 0 then -1 else k + 1
  }

  /** Writing a file: an existing file of that name is replaced, otherwise
      the new one is added. */
  function Put(es: seq<DirEntry>, e: DirEntry): (r: seq<DirEntry>)
    requires Lists.KeysDistinct(es, EntryName)
    ensures Written(es, e, r)
  {
    var k := IndexOfName(es, e.name);
    if k >= 0 then
      Replaced(es, e, k);
      es[k := e]
    else
      Appended(es, e);
      es + [e]
  }

  /** `r` is the directory `es` after writing `e`: names stay distinct, `e`
      is found under its name, every other file stays, and nothing else
      appears. */
  predicate Written(es: seq<DirEntry>, e: DirEntry, r: seq<DirEntry>) {
    Lists.KeysDistinct(r, EntryName)
    && IndexOfName(r, e.name) >= 0 && r[IndexOfName(r, e.name)] == e
    && (forall x :: x in es && x.name != e.name ==> x in r)
    && (forall x :: x in r ==> x == e || (x in es && x.name != e.name))
  }

  lemma Replaced(es: seq<DirEntry>, e: DirEntry, k: int)
    requires Lists.KeysDistinct(es, EntryName) && 0 <= k < |es| && es[k].name == e.name
    ensures Written(es, e, es[k := e])
  {
    var r := es[k := e];
    assert forall i :: 0 <= i < |r| && i != k ==> r[i] == es[i] && es[i].name != e.name;
    assert r[k] == e;
    var k' := IndexOfName(r, e.name);
    assert EntryName(r[k']) == EntryName(r[k]);
  }

  lemma Appended(es: seq<DirEntry>, e: DirEntry)
    requires Lists.KeysDistinct(es, EntryName) && IndexOfName(es, e.name) < 0
    ensures Written(es, e, es + [e])
  {
    var r := es + [e];
    assert forall i :: 0 <= i < |es| ==> r[i] == es[i];
    assert r[|es|] == e;
    var k' := IndexOfName(r, e.name);
    assert EntryName(r[k']) == EntryName(r[|es|]);
  }

  function NotNamed(name: string): DirEntry -> bool { (e: DirEntry) => e.name != name }

  /** The directory once `name` is unlinked. */
  function Unlinked(es: seq<DirEntry>, name: string): (r: seq<DirEntry>)
    ensures forall x :: x in r <==> x in es && x.name != name
  {
    Lists.Filter(es, NotNamed(name))
  }

  /** The file names `glob("awg_backup_*.zip")` yields. */
  predicate Matches(name: string) {
    |name| >= 15 && name[..11] == "awg_backup_" && name[|name| - 4..] == ".zip"
  }

  function BackupName(timestamp: string): string {
    "awg_backup_" + timestamp + ".zip"
  }

  /** Whatever the timestamp text, the file `create_backup` names is one the
      listing picks up. */
  lemma BackupNameMatches(timestamp: string)
    ensures Matches(BackupName(timestamp))
  {
    var n := BackupName(timestamp);
    assert n[..11] == "awg_backup_";
    assert n[|n| - 4..] == ".zip";
  }

  datatype BackupInfo = BackupInfo(filename: string, size: nat, createdAt: int)

  function Info(e: DirEntry): BackupInfo {
    BackupInfo(e.name, e.file.size, e.file.ctime)
  }

  function InfoCreated(b: BackupInfo): int { b.createdAt }

  /** The matching entries, in directory order. */
  function Globbed(es: seq<DirEntry>): (r: seq<BackupInfo>)
    decreases |es|
  {
    if es == [] then []
    else
      var last := es[|es| - 1];
      Globbed(es[..|es| - 1]) + (if Matches(last.name) then [Info(last)] else [])
  }

  lemma {:induction false} GlobbedMembers(es: seq<DirEntry>, x: BackupInfo)
    ensures x in Globbed(es) <==> exists i :: 0 <= i < |es| && Matches(es[i].name) && x == Info(es[i])
    decreases |es|
  {
    if es != [] {
      var init := es[..|es| - 1];
      GlobbedMembers(init, x);
      assert forall i :: 0 <= i < |init| ==> init[i] == es[i];
      if x in Globbed(init) {
        var i :| 0 <= i < |init| && Matches(init[i].name) && x == Info(init[i]);
        assert Matches(es[i].name) && x == Info(es[i]);
      }
    }
  }

  /** `list_backups()`: the matching files, newest first. */
  function ListSpec(es: seq<DirEntry>): seq<BackupInfo> {
    Lists.SortDesc(Globbed(es), InfoCreated)
  }

  /** The listing is ordered newest first and holds a file of the directory
      exactly when its name matches the backup pattern. */
  lemma ListSpecCorrect(es: seq<DirEntry>, e: DirEntry)
    ensures Lists.SortedDesc(ListSpec(es), InfoCreated)
    ensures e in es ==> (Info(e) in ListSpec(es) <==> Matches(e.name))
    ensures forall x :: x in ListSpec(es) ==> Matches(x.filename)
  {
    Lists.SortDescMembers(Globbed(es), InfoCreated, Info(e));
    GlobbedMembers(es, Info(e));
    if e in es && Matches(e.name) {
      var i :| 0 <= i < |es| && es[i] == e;
      assert Matches(es[i].name) && Info(e) == Info(es[i]);
    }
    forall x | x in ListSpec(es) ensures Matches(x.filename) {
      Lists.SortDescMembers(Globbed(es), InfoCreated, x);
      GlobbedMembers(es, x);
    }
  }

  // --------------------------------------------------------------- restore

  /** Deleting the row with `c`'s id; a client without an id matches no
      row. */
  function DeleteOne(t: Tables, c: Client): Tables {
    if c.id.Some? then DeleteClientSpec(t, c.id.value).0 else t
  }

  /** The deletion loop over the clients read before it. */
  function DeleteEach(t: Tables, cs: seq<Client>): Tables
    decreases |cs|
  {
    if cs == [] then t else DeleteEach(DeleteOne(t, cs[0]), cs[1..])
  }

  lemma {:induction false} DeleteEachKeeps(t: Tables, cs: seq<Client>)
    requires ValidTables(t)
    ensures var t' := DeleteEach(t, cs);
      ValidTables(t') && t'.nextId == t.nextId && t'.settings == t.settings
      && forall c :: c in t'.clients ==> c in t.clients && (c in cs ==> c.id.None?)
    decreases |cs|
  {
    if cs != [] {
      var t1 := DeleteOne(t, cs[0]);
      if cs[0].id.Some? {
        DeleteClientSpecCorrect(t, cs[0].id.value);
      }
      DeleteEachKeeps(t1, cs[1..]);
      var t' := DeleteEach(t, cs);
      forall c | c in t'.clients ensures c in t.clients && (c in cs ==> c.id.None?) {
        assert c in t1.clients;
        if cs[0].id.Some? {
          assert c.id != cs[0].id;
        }
        assert c in cs ==> c == cs[0] || c in cs[1..];
      }
    }
  }

  /** Deleting every client read from a valid database empties its client
      table and keeps it valid. */
  lemma DeleteAllEmpties(t: Tables)
    requires ValidTables(t)
    ensures var t' := DeleteEach(t, GetAllClients(t));
      ValidTables(t') && t'.clients == [] && t'.nextId == t.nextId && t'.settings == t.settings
  {
    var all := GetAllClients(t);
    var t' := DeleteEach(t, all);
    DeleteEachKeeps(t, all);
    forall c | c in t.clients ensures c in all && c.id.Some? {
      Lists.SortDescMembers(t.clients, CreatedKey, c);
      var j :| 0 <= j < |t.clients| && t.clients[j] == c;
      assert WellStored(t.clients[j], t.nextId);
    }
    assert forall c :: c !in t'.clients;
    assert multiset(t'.clients) == multiset{};
  }

  /** The insertion loop: the records in order, each through `add_client`,
      until one cannot be read or is refused. */
  function AddEach(t: Tables, recs: seq<Option<Record>>, now: int): (Tables, bool)
    decreases |recs|
  {
    if recs == [] then (t, true)
    else match recs[0]
      case None => (t, false)
      case Some(r) =>
        var (t1, res) := AddClientSpec(t, Restored(r), now);
        if res.Err? then (t1, false) else AddEach(t1, recs[1..], now)
  }

  /** Once `clients.json` decoded: delete every client, then add the
      records. */
  function RestoreDocument(t: Tables, clients: Option<seq<Option<Record>>>, now: int): (Tables, bool) {
    var cleared := DeleteEach(t, GetAllClients(t));
    match clients
    case None => (cleared, false)
    case Some(recs) => AddEach(cleared, recs, now)
  }

  /** `restore_backup(name)` against the directory `es`: the new state of
      the database and the reported success. */
  function RestoreSpec(t: Tables, es: seq<DirEntry>, name: string, now: int): (r: (Tables, bool))
    ensures IndexOfName(es, name) < 0 ==> r == (t, false)
    ensures IndexOfName(es, name) >= 0 && es[IndexOfName(es, name)].file.archive in {NotAZip, Zip(None)} ==> r == (t, false)
  {
    var k := IndexOfName(es, name);
    if k < 0 then (t, false)
    else match es[k].file.archive
      case NotAZip => (t, false)
      case Zip(None) => (t, false)
      case Zip(Some(Undecodable)) => (t, false)
      case Zip(Some(Decoded(clients))) => RestoreDocument(t, clients, now)
  }

  /** Restoring is not atomic: a `clients.json` without the `clients` key
      still wipes every client before the failure is reported. */
  lemma RestoreWithoutClientsKey(t: Tables, now: int)
    requires ValidTables(t)
    ensures RestoreDocument(t, None, now).1 == false
    ensures RestoreDocument(t, None, now).0.clients == []
  {
    DeleteAllEmpties(t);
  }

  function RecordName(r: Record): string { r.name }
  function RecordIp(r: Record): string { r.ipAddress }

  /** The rows `add_client` inserts for `rs`, numbered from `id`. */
  function Inserts(rs: seq<Record>, id: int, now: int): (r: seq<Client>)
    ensures |r| == |rs|
  {
    if rs == [] then [] else [Inserted(Restored(rs[0]), id, now)] + Inserts(rs[1..], id + 1, now)
  }

  /** Row `i` of the inserts is record `i` under id `id + i`. */
  lemma {:induction false} InsertsAt(rs: seq<Record>, id: int, now: int, i: int)
    requires 0 <= i < |rs|
    ensures Inserts(rs, id, now)[i] == Inserted(Restored(rs[i]), id + i, now)
  {
    if i > 0 {
      InsertsAt(rs[1..], id + 1, now, i - 1);
    }
  }

  /** Readable records whose names and addresses clash neither with each
      other nor with a current client are all added, in order, with
      consecutive new ids. */
  lemma {:induction false} AddEachAll(t: Tables, rs: seq<Record>, now: int)
    requires Lists.KeysDistinct(rs, RecordName) && Lists.KeysDistinct(rs, RecordIp)
    requires forall i, k :: 0 <= i < |rs| && 0 <= k < |t.clients| ==>
      t.clients[k].name != rs[i].name && t.clients[k].ipAddress != rs[i].ipAddress
    ensures AddEach(t, Wrap(rs), now)
      == (t.(clients := t.clients + Inserts(rs, t.nextId, now), nextId := t.nextId + |rs|), true)
    decreases |rs|
  {
    if rs != [] {
      var row := Inserted(Restored(rs[0]), t.nextId, now);
      TailStillFresh(t, rs, row);
      AddEachAll(t.(clients := t.clients + [row], nextId := t.nextId + 1), rs[1..], now);
      AddEachCons(t, rs, now);
    } else {
      assert Wrap(rs) == [];
      assert t.clients + Inserts(rs, t.nextId, now) == t.clients;
    }
  }

  /** The induction step of `AddEachAll`: adding the first record, then
      the rest as the hypothesis says. */
  lemma AddEachCons(t: Tables, rs: seq<Record>, now: int)
    requires rs != []
    requires forall k :: 0 <= k < |t.clients| ==>
      t.clients[k].name != rs[0].name && t.clients[k].ipAddress != rs[0].ipAddress
    requires var t1 := t.(clients := t.clients + [Inserted(Restored(rs[0]), t.nextId, now)], nextId := t.nextId + 1);
      AddEach(t1, Wrap(rs[1..]), now)
      == (t1.(clients := t1.clients + Inserts(rs[1..], t1.nextId, now), nextId := t1.nextId + |rs[1..]|), true)
    ensures AddEach(t, Wrap(rs), now)
      == (t.(clients := t.clients + Inserts(rs, t.nextId, now), nextId := t.nextId + |rs|), true)
  {
    AddEachFirst(t, rs, now);
    InsertsAfter(t.clients, rs, t.nextId, now);
  }

  lemma InsertsAfter(cs: seq<Client>, rs: seq<Record>, id: int, now: int)
    requires rs != []
    ensures (cs + [Inserted(Restored(rs[0]), id, now)]) + Inserts(rs[1..], id + 1, now) == cs + Inserts(rs, id, now)
  {
    InsertsCons(rs, id, now);
  }

  /** The first fresh record is added under the next id, and the loop goes
      on with the rest. */
  lemma AddEachFirst(t: Tables, rs: seq<Record>, now: int)
    requires rs != []
    requires forall k :: 0 <= k < |t.clients| ==>
      t.clients[k].name != rs[0].name && t.clients[k].ipAddress != rs[0].ipAddress
    ensures var t1 := t.(clients := t.clients + [Inserted(Restored(rs[0]), t.nextId, now)], nextId := t.nextId + 1);
      AddEach(t, Wrap(rs), now) == AddEach(t1, Wrap(rs[1..]), now)
  {
    var t1 := t.(clients := t.clients + [Inserted(Restored(rs[0]), t.nextId, now)], nextId := t.nextId + 1);
    assert !NameTaken(t.clients, rs[0].name) && !IpTaken(t.clients, rs[0].ipAddress);
    assert AddClientSpec(t, Restored(rs[0]), now) == (t1, Ok(t.nextId));
    assert Wrap(rs)[1..] == Wrap(rs[1..]);
    assert Wrap(rs) != [] && Wrap(rs)[0] == Some(rs[0]);
  }

  /** The rest of the records still clash with nothing once the first is
      added. */
  lemma TailStillFresh(t: Tables, rs: seq<Record>, row: Client)
    requires rs != [] && row.name == rs[0].name && row.ipAddress == rs[0].ipAddress
    requires Lists.KeysDistinct(rs, RecordName) && Lists.KeysDistinct(rs, RecordIp)
    requires forall i, k :: 0 <= i < |rs| && 0 <= k < |t.clients| ==>
      t.clients[k].name != rs[i].name && t.clients[k].ipAddress != rs[i].ipAddress
    ensures Lists.KeysDistinct(rs[1..], RecordName) && Lists.KeysDistinct(rs[1..], RecordIp)
    ensures forall i, k :: 0 <= i < |rs[1..]| && 0 <= k < |t.clients + [row]| ==>
      (t.clients + [row])[k].name != rs[1..][i].name && (t.clients + [row])[k].ipAddress != rs[1..][i].ipAddress
  {
    var tail := rs[1..];
    var cs := t.clients + [row];
    assert Lists.KeysDistinct(tail, RecordName) && Lists.KeysDistinct(tail, RecordIp) by {
      forall a, b | 0 <= a < |tail| && 0 <= b < |tail| ensures
        (RecordName(tail[a]) == RecordName(tail[b]) ==> a == b) && (RecordIp(tail[a]) == RecordIp(tail[b]) ==> a == b)
      {
        assert tail[a] == rs[a + 1] && tail[b] == rs[b + 1];
      }
    }
    forall i, k | 0 <= i < |tail| && 0 <= k < |cs|
      ensures cs[k].name != tail[i].name && cs[k].ipAddress != tail[i].ipAddress
    {
      assert tail[i] == rs[i + 1];
      if k == |t.clients| {
        assert RecordName(rs[0]) != RecordName(rs[i + 1]) && RecordIp(rs[0]) != RecordIp(rs[i + 1]);
      } else {
        assert cs[k] == t.clients[k];
      }
    }
  }

  lemma InsertsCons(rs: seq<Record>, id: int, now: int)
    requires rs != []
    ensures Inserts(rs, id, now) == [Inserted(Restored(rs[0]), id, now)] + Inserts(rs[1..], id + 1, now)
  {
  }

  /** What a client `c` looks like once a backup of it has been restored at
      `now`: name, keys, address, endpoint, expiry, limit and flags carried
      over; the preshared key empty, the usage zero, the creation time the
      moment of the restore. */
  predicate Survives(c: Client, r: Client, now: int) {
    r.name == c.name && r.publicKey == c.publicKey && r.privateKey == c.privateKey
    && r.ipAddress == c.ipAddress && r.endpoint == c.endpoint && r.expiresAt == c.expiresAt
    && r.trafficLimit == c.trafficLimit && r.isActive == c.isActive && r.isBlocked == c.isBlocked
    && r.presharedKey == "" && r.trafficUsed == 0 && r.createdAt == Some(now)
    && r.lastIp == "" && r.dailyIps == ""
  }

  /** Backing up the clients of `t` and restoring the archive into `u`
      succeeds and leaves exactly one row per backed-up client, in backup
      order, with fresh ids. */
  lemma BackupRestoreRoundTrip(t: Tables, u: Tables, now: int)
    requires ValidTables(t) && ValidTables(u)
    ensures var all := GetAllClients(t);
      var r := RestoreDocument(u, Some(Wrap(RecordsOf(all))), now);
      r.1 && AllSurvive(all, r.0.clients, u.nextId, now)
  {
    var all := GetAllClients(t);
    Lists.ReorderKeepsDistinct(t.clients, all, ClientName);
    Lists.ReorderKeepsDistinct(t.clients, all, ClientIp);
    RecordsDistinct(all);
    RestoreDistinctRecords(u, RecordsOf(all), now);
    StoredLimitsNormalized(t);
    InsertsSurvive(all, u.nextId, now);
  }

  /** Records with distinct names and addresses replace every client. */
  lemma RestoreDistinctRecords(u: Tables, rs: seq<Record>, now: int)
    requires ValidTables(u)
    requires Lists.KeysDistinct(rs, RecordName) && Lists.KeysDistinct(rs, RecordIp)
    ensures RestoreDocument(u, Some(Wrap(rs)), now).1
    ensures RestoreDocument(u, Some(Wrap(rs)), now).0.clients == Inserts(rs, u.nextId, now)
  {
    DeleteAllEmpties(u);
    var cleared := DeleteEach(u, GetAllClients(u));
    AddEachAll(cleared, rs, now);
  }

  lemma StoredLimitsNormalized(t: Tables)
    requires ValidTables(t)
    ensures forall c :: c in GetAllClients(t) ==> Normalized(c.trafficLimit)
  {
    forall c | c in GetAllClients(t) ensures Normalized(c.trafficLimit) {
      Lists.SortDescMembers(t.clients, CreatedKey, c);
      var j :| 0 <= j < |t.clients| && t.clients[j] == c;
      assert WellStored(t.clients[j], t.nextId);
    }
  }

  /** Row `i` of `rows` is client `i` of `cs` restored as id `id + i`. */
  predicate AllSurvive(cs: seq<Client>, rows: seq<Client>, id: int, now: int) {
    |rows| == |cs| && forall i :: 0 <= i < |cs| ==> Survives(cs[i], rows[i], now) && rows[i].id == Some(id + i)
  }

  lemma InsertsSurvive(cs: seq<Client>, id: int, now: int)
    requires forall c :: c in cs ==> Normalized(c.trafficLimit)
    ensures AllSurvive(cs, Inserts(RecordsOf(cs), id, now), id, now)
  {
    var rows := Inserts(RecordsOf(cs), id, now);
    forall i | 0 <= i < |cs| ensures Survives(cs[i], rows[i], now) && rows[i].id == Some(id + i) {
      InsertsAt(RecordsOf(cs), id, now, i);
      assert cs[i] in cs;
      SurvivesInsert(cs[i], id + i, now);
    }
  }

  /** Distinct client names and addresses give distinct record names and
      addresses. */
  lemma RecordsDistinct(cs: seq<Client>)
    requires Lists.KeysDistinct(cs, ClientName) && Lists.KeysDistinct(cs, ClientIp)
    ensures Lists.KeysDistinct(RecordsOf(cs), RecordName) && Lists.KeysDistinct(RecordsOf(cs), RecordIp)
  {
    var rs := RecordsOf(cs);
    forall a, b | 0 <= a < |rs| && 0 <= b < |rs| && RecordName(rs[a]) == RecordName(rs[b]) ensures a == b {
      assert ClientName(cs[a]) == ClientName(cs[b]);
    }
    forall a, b | 0 <= a < |rs| && 0 <= b < |rs| && RecordIp(rs[a]) == RecordIp(rs[b]) ensures a == b {
      assert ClientIp(cs[a]) == ClientIp(cs[b]);
    }
  }

  /** A stored client's record, restored as row `id`. */
  lemma SurvivesInsert(c: Client, id: int, now: int)
    requires Normalized(c.trafficLimit)
    ensures Survives(c, Inserted(Restored(ToRecord(c)), id, now), now)
    ensures Inserted(Restored(ToRecord(c)), id, now).id == Some(id)
  {
  }

  // ------------------------------------------------------------------ size

  /** The unit `format_backup_size` picks: B, KB, MB, or GB for anything
      larger. */
  function BackupUnit(size: int): (u: nat)
    ensures 1 <= u <= 3 ==> Formatters.Pow1024(u) <= size
    ensures u <= 2 ==> size < Formatters.Pow1024(u + 1)
    ensures u <= 3
  {
    if size < 1024 then 0 else if size < 1024 * 1024 then 1 else if size < 1024 * 1024 * 1024 then 2 else 3
  }

  /** Below a tebibyte the backup size and the traffic size settle on the
      same unit; from there on backups stay in GB. */
  lemma BackupUnitMatchesTraffic(size: int)
    ensures size < Formatters.Pow1024(4) ==> BackupUnit(size) == Formatters.UnitFor(size)
    ensures size >= Formatters.Pow1024(4) ==> BackupUnit(size) == 3 && Formatters.UnitFor(size) == 4
  {
    Formatters.UnitForIsLargest(size);
    var u := Formatters.UnitFor(size);
    assert Formatters.Pow1024(1) == 1024;
    assert Formatters.Pow1024(2) == 1024 * 1024;
    assert Formatters.Pow1024(3) == 1024 * 1024 * 1024;
    assert Formatters.Pow1024(4) == 1024 * 1024 * 1024 * 1024;
  }

  /** `f"{num / den:.1f}"` for a non-negative quotient. */
  function Fixed1(num: nat, den: nat): string
    requires den > 0
  {
    var h := Formatters.RoundHalfEven(num * 10, den);
    NatToString(h / 10) + "." + [DigitChar(h % 10)]
  }

  /** `format_backup_size(size_bytes)`. */
  function FormatBackupSize(size: int): (r: string)
    ensures size < 1024 ==> r == IntToString(size) + " B"
    ensures size >= 1024 ==> EndsWith(r, " " + Formatters.Units[BackupUnit(size)])
  {
    var u := BackupUnit(size);
    if u == 0 then IntToString(size) + " B"
    else Fixed1(size, Formatters.Pow1024(u)) + " " + Formatters.Units[u]
  }

  // --------------------------------------------------------------- service

  /** The first loop of `restore_backup`: delete each listed client. */
  method DeleteClients(db: Database, current: seq<Client>)
    requires db.Valid()
    modifies db
    ensures db.Valid()
    ensures db.State() == DeleteEach(old(db.State()), current)
  {
    ghost var start := db.State();
    for i := 0 to |current|
      invariant db.Valid()
      invariant DeleteEach(db.State(), current[i..]) == DeleteEach(start, current)
    {
      assert current[i..][1..] == current[i + 1..];
      if current[i].id.Some? {
        var found := db.DeleteClient(current[i].id.value);
      }
    }
  }

  /** The second loop of `restore_backup`: add each record, stopping at the
      first that is missing or that the database refuses. */
  method AddRecords(db: Database, recs: seq<Option<Record>>, now: int) returns (ok: bool)
    requires db.Valid()
    modifies db
    ensures db.Valid()
    ensures (db.State(), ok) == AddEach(old(db.State()), recs, now)
  {
    ghost var cleared := db.State();
    for i := 0 to |recs|
      invariant db.Valid()
      invariant AddEach(db.State(), recs[i..], now) == AddEach(cleared, recs, now)
    {
      assert recs[i..][1..] == recs[i + 1..];
      if recs[i].None? {
        return false;
      }
      var r := db.AddClient(Restored(recs[i].value), now);
      if r.Err? {
        return false;
      }
    }
    return true;
  }

  /** The service and the backup directory it owns: the directory's entries
      in the order the file system lists them. */
  class BackupService {
    var entries: seq<DirEntry>

    /** A directory holds one file per name. */
    predicate Valid()
      reads this
    {
      Lists.KeysDistinct(entries, EntryName)
    }

    /** The service over an existing (or freshly created) directory. */
    constructor (existing: seq<DirEntry>)
      requires Lists.KeysDistinct(existing, EntryName)
      ensures Valid() && entries == existing
    {
      entries := existing;
    }

    /** `create_backup()` at `now`, with `timestamp` the formatted clock and
      `size` the size of the archive written. */
    method CreateBackup(db: Database, timestamp: string, size: nat, now: int) returns (filename: string)
      requires Valid() && db.Valid()
      modifies this
      ensures Valid()
      ensures filename == BackupName(timestamp)
      ensures entries == Put(old(entries),
        DirEntry(filename, BackupFile(size, now, Zip(Some(Decoded(Some(Wrap(RecordsOf(GetAllClients(db.State()))))))))))
    {
      filename := "awg_backup_" + timestamp + ".zip";
      var clients := GetAllClients(db.State());
      var records: seq<Record> := [];
      for i := 0 to |clients|
        invariant records == RecordsOf(clients[..i])
      {
        records := records + [ToRecord(clients[i])];
      }
      assert clients[..|clients|] == clients;
      var file := BackupFile(size, now, Zip(Some(Decoded(Some(Wrap(records))))));
      entries := Put(entries, DirEntry(filename, file));
    }

    /** `list_backups()`. */
    method ListBackups() returns (backups: seq<BackupInfo>)
      ensures backups == ListSpec(entries)
    {
      backups := [];
      for i := 0 to |entries|
        invariant backups == Globbed(entries[..i])
      {
        assert entries[..i + 1][..i] == entries[..i];
        if Matches(entries[i].name) {
          backups := backups + [Info(entries[i])];
        }
      }
      assert entries[..|entries|] == entries;
      backups := Lists.SortDesc(backups, InfoCreated);
    }

    /** `restore_backup(name)` at `now`. */
    method RestoreBackup(db: Database, name: string, now: int) returns (ok: bool)
      requires db.Valid()
      modifies db
      ensures db.Valid()
      ensures (db.State(), ok) == RestoreSpec(old(db.State()), entries, name, now)
    {
      var k := IndexOfName(entries, name);
      if k < 0 {
        return false;
      }
      var archive := entries[k].file.archive;
      if archive.NotAZip? || archive.clientsJson.None? || archive.clientsJson.value.Undecodable? {
        return false;
      }
      var clientsKey := archive.clientsJson.value.clients;
      DeleteClients(db, GetAllClients(db.State()));
      if clientsKey.None? {
        return false;
      }
      ok := AddRecords(db, clientsKey.value, now);
    }

    /** `delete_backup(name)`. */
    method DeleteBackup(name: string) returns (ok: bool)
      requires Valid()
      modifies this
      ensures Valid()
      ensures ok <==> IndexOfName(old(entries), name) >= 0
      ensures entries == Unlinked(old(entries), name)
    {
      ok := IndexOfName(entries, name) >= 0;
      Lists.FilterKeepsDistinct(entries, NotNamed(name), EntryName);
      entries := Unlinked(entries, name);
    }
  }
}
