/** One pass of the periodic limit check: block clients whose time is up,
    read `awg show` (which also records where peers connect from), refresh
    every listed peer's traffic counter and block those over quota. The pass
    only ever sets `is_blocked`; it never removes a peer from the interface. */
module Enforcement {
  import opened Wrappers
  import opened PyText
  import opened Store
  import Lists
  import opened Traffic
  import opened AwgManager

  // ------------------------------------------------------- what a pass keeps

  /** A row after a pass: the same client (id, keys, address), the same
      `is_active`, and blocked if it was blocked before. */
  predicate SameRow(a: Client, b: Client) {
    a.id == b.id && a.publicKey == b.publicKey && a.privateKey == b.privateKey
    && a.presharedKey == b.presharedKey && a.ipAddress == b.ipAddress
    && a.isActive == b.isActive && (a.isBlocked ==> b.isBlocked)
  }

  /** Row by row, `t'` is `t` with nothing unblocked and nothing added,
      removed or re-keyed. */
  predicate Evolves(t: Tables, t': Tables) {
    |t'.clients| == |t.clients| && forall i :: 0 <= i < |t.clients| ==> SameRow(t.clients[i], t'.clients[i])
  }

  lemma EvolvesTrans(t1: Tables, t2: Tables, t3: Tables)
    requires Evolves(t1, t2) && Evolves(t2, t3)
    ensures Evolves(t1, t3)
  {
    forall i | 0 <= i < |t1.clients| ensures SameRow(t1.clients[i], t3.clients[i]) {
      assert SameRow(t2.clients[i], t3.clients[i]);
    }
  }

  /** `update_client` with a row that agrees with the stored one on
      `is_active` and does not clear `is_blocked` keeps `Evolves`. */
  lemma UpdateEvolves(t: Tables, c: Client)
    requires forall i :: 0 <= i < |t.clients| && t.clients[i].id == c.id ==>
      t.clients[i].isActive == c.isActive && (t.clients[i].isBlocked ==> c.isBlocked)
    ensures Evolves(t, UpdateClientSpec(t, c).0)
  {
  }

  /** Recording a sighting only touches `last_ip` and the connection rows. */
  lemma TrackEvolves(t: Tables, s: Sighting, today: string, now: int)
    requires ValidTables(t)
    ensures Evolves(t, TrackClientIpSpec(t, s, today, now))
  {
    var cs := GetAllClients(t);
    var i := FirstWithKey(cs, s.publicKey);
    if i >= 0 {
      ListedIsStored(t, i);
      RecordEvolves(t, cs[i], s.ip, today, now);
    }
  }

  lemma RecordEvolves(t: Tables, c: Client, ip: string, today: string, now: int)
    requires ValidTables(t) && c in t.clients && c.id.Some?
    ensures Evolves(t, RecordSighting(t, c, ip, today, now))
  {
    var k :| 0 <= k < |t.clients| && t.clients[k] == c;
    forall j | 0 <= j < |t.clients| && t.clients[j].id == c.id
      ensures t.clients[j].isActive == c.isActive && t.clients[j].isBlocked == c.isBlocked
    {
      assert ClientId(t.clients[j]) == ClientId(t.clients[k]);
    }
    UpdateEvolves(t, c.(lastIp := ip));
  }

  lemma {:induction false} TrackAllEvolves(t: Tables, seen: seq<Sighting>, today: string, now: int)
    requires ValidTables(t)
    ensures Evolves(t, TrackAll(t, seen, today, now))
  {
    if seen != [] {
      var init := seen[..|seen| - 1];
      TrackAllEvolves(t, init, today, now);
      TrackEvolves(TrackAll(t, init, today, now), seen[|seen| - 1], today, now);
      EvolvesTrans(t, TrackAll(t, init, today, now), TrackAll(t, seen, today, now));
    }
  }

  lemma StatsEvolves(t: Tables, plain: Completed, sudo: Completed, today: string, now: int)
    requires ValidTables(t)
    ensures Evolves(t, InterfaceStatsSpec(t, plain, sudo, today, now).1)
  {
    match ShowOutput(plain, sudo)
    case None =>
    case Some(out) =>
      TrackAllEvolves(t, Run(Initial, Classified(SplitOn(out, "\n"))).seen, today, now);
  }

  /** `t'` differs from `t` in the client rows' `last_ip` at most; the
      connection rows may differ. */
  predicate OnlyLastIp(t: Tables, t': Tables) {
    |t'.clients| == |t.clients|
    && forall i :: 0 <= i < |t.clients| ==> t'.clients[i] == t.clients[i].(lastIp := t'.clients[i].lastIp)
  }

  lemma OnlyLastIpTrans(t1: Tables, t2: Tables, t3: Tables)
    requires OnlyLastIp(t1, t2) && OnlyLastIp(t2, t3)
    ensures OnlyLastIp(t1, t3)
  {
    forall i | 0 <= i < |t1.clients| ensures t3.clients[i] == t1.clients[i].(lastIp := t3.clients[i].lastIp) {
      assert t3.clients[i] == t2.clients[i].(lastIp := t3.clients[i].lastIp);
    }
  }

  /** Recording a sighting of a stored client writes that row's `last_ip`
      and no other client column. */
  lemma RecordOnlyLastIp(t: Tables, k: int, ip: string, today: string, now: int)
    requires ValidTables(t) && 0 <= k < |t.clients|
    ensures t.clients[k].id.Some? && OnlyLastIp(t, RecordSighting(t, t.clients[k], ip, today, now))
  {
    var c := t.clients[k];
    LastIpWritten(t, k, ip);
    StoredRowWrite(t, k, c.(lastIp := ip));
    var t1 := UpdateClientSpec(t, c.(lastIp := ip)).0;
    AddConnectionSpecCorrect(t1, c.id.value, ip, today, now);
    assert RecordSighting(t, c, ip, today, now).clients == t1.clients;
  }

  lemma TrackOnlyLastIp(t: Tables, s: Sighting, today: string, now: int)
    requires ValidTables(t)
    ensures OnlyLastIp(t, TrackClientIpSpec(t, s, today, now))
  {
    var cs := GetAllClients(t);
    var i := FirstWithKey(cs, s.publicKey);
    if i >= 0 {
      ListedIsStored(t, i);
      var k :| 0 <= k < |t.clients| && t.clients[k] == cs[i];
      RecordOnlyLastIp(t, k, s.ip, today, now);
    }
  }

  lemma {:induction false} TrackAllOnlyLastIp(t: Tables, seen: seq<Sighting>, today: string, now: int)
    requires ValidTables(t)
    ensures OnlyLastIp(t, TrackAll(t, seen, today, now))
  {
    if seen != [] {
      var init := seen[..|seen| - 1];
      TrackAllOnlyLastIp(t, init, today, now);
      TrackOnlyLastIp(TrackAll(t, init, today, now), seen[|seen| - 1], today, now);
      OnlyLastIpTrans(t, TrackAll(t, init, today, now), TrackAll(t, seen, today, now));
    }
  }

  /** Reading the interface stats changes the client rows only in their
      `last_ip`. */
  lemma StatsOnlyLastIp(t: Tables, plain: Completed, sudo: Completed, today: string, now: int)
    requires ValidTables(t)
    ensures OnlyLastIp(t, InterfaceStatsSpec(t, plain, sudo, today, now).1)
  {
    match ShowOutput(plain, sudo)
    case None =>
    case Some(out) =>
      TrackAllOnlyLastIp(t, Run(Initial, Classified(SplitOn(out, "\n"))).seen, today, now);
  }

  // ------------------------------------------------------------ expiry step

  /** The row the expiry step leaves: blocked when it is expired, active and
      not yet blocked. */
  function ExpireRow(c: Client, now: int): (r: Client)
    ensures SameRow(c, r)
    ensures r.isBlocked <==> c.isBlocked || (ExpiredBefore(now)(c) && c.isActive)
  {
    if ExpiredBefore(now)(c) && !c.isBlocked && c.isActive then c.(isBlocked := true) else c
  }

  /** One trip through the expiry loop with the row `c` as listed; false
      when `update_client` raised (which ends the pass). */
  function ExpireOne(t: Tables, c: Client): (r: (Tables, bool))
    requires ValidTables(t)
    ensures ValidTables(r.0)
  {
    if !c.isBlocked && c.isActive then
      var w := UpdateClientSpec(t, c.(isBlocked := true));
      UpdateClientSpecOutcome(t, c.(isBlocked := true));
      (w.0, w.1.Ok?)
    else (t, true)
  }

  /** The expiry loop over the listed rows `cs`, stopping at the first
      error. */
  function ExpireAll(t: Tables, cs: seq<Client>): (r: (Tables, bool))
    requires ValidTables(t)
    ensures ValidTables(r.0)
    decreases |cs|
  {
    if cs == [] then (t, true)
    else
      var step := ExpireOne(t, cs[0]);
      if !step.1 then step else ExpireAll(step.0, cs[1..])
  }

  /** Over rows listed from the store itself, the expiry loop never fails,
      blocks exactly the listed rows that were active and unblocked, and
      leaves every other row as it was. */
  lemma {:induction false} ExpireAllEffect(t: Tables, cs: seq<Client>)
    requires ValidTables(t)
    requires forall i :: 0 <= i < |cs| ==> cs[i] in t.clients
    requires Lists.KeysDistinct(cs, ClientId)
    ensures var r := ExpireAll(t, cs);
      r.1 && r.0 == t.(clients := r.0.clients) && |r.0.clients| == |t.clients|
      && forall j :: 0 <= j < |t.clients| ==>
        r.0.clients[j] == if t.clients[j] in cs && !t.clients[j].isBlocked && t.clients[j].isActive
                          then t.clients[j].(isBlocked := true) else t.clients[j]
    decreases |cs|
  {
    if cs != [] {
      var x := cs[0];
      var p :| 0 <= p < |t.clients| && t.clients[p] == x;
      var t1 := ExpireOne(t, x).0;
      if !x.isBlocked && x.isActive {
        StoredRowWrite(t, p, x.(isBlocked := true));
        assert t1 == t.(clients := t.clients[p := x.(isBlocked := true)]);
      } else {
        assert t1.clients == t.clients[p := x];
      }
      var rest := cs[1..];
      TailListed(t.clients, cs, p, t1.clients);
      ExpireAllEffect(t1, rest);
      forall j | 0 <= j < |t.clients|
        ensures ExpireAll(t, cs).0.clients[j] ==
          if t.clients[j] in cs && !t.clients[j].isBlocked && t.clients[j].isActive
          then t.clients[j].(isBlocked := true) else t.clients[j]
      {
        if j != p {
          assert t1.clients[j] == t.clients[j];
        }
      }
    }
  }

  /** After the first listed row (stored at `p`) is rewritten with its id
      kept, the rest of the list is still listed, still has distinct ids,
      and is exactly the list less that row. */
  lemma TailListed(clients: seq<Client>, cs: seq<Client>, p: int, clients1: seq<Client>)
    requires Lists.KeysDistinct(clients, ClientId)
    requires cs != [] && 0 <= p < |clients| && clients[p] == cs[0]
    requires forall i :: 0 <= i < |cs| ==> cs[i] in clients
    requires Lists.KeysDistinct(cs, ClientId)
    requires |clients1| == |clients| && clients1[p].id == clients[p].id
    requires forall j :: 0 <= j < |clients| && j != p ==> clients1[j] == clients[j]
    ensures forall i :: 0 <= i < |cs[1..]| ==> cs[1..][i] in clients1
    ensures Lists.KeysDistinct(cs[1..], ClientId)
    ensures clients[p] !in cs[1..]
    ensures forall j :: 0 <= j < |clients| && j != p ==> (clients[j] in cs <==> clients[j] in cs[1..])
  {
    var rest := cs[1..];
    forall i | 0 <= i < |rest| ensures rest[i] in clients1 {
      assert ClientId(cs[i + 1]) != ClientId(cs[0]);
      var q :| 0 <= q < |clients| && clients[q] == rest[i];
      assert clients1[q] == rest[i];
    }
    assert Lists.KeysDistinct(rest, ClientId) by {
      forall a, b | 0 <= a < |rest| && 0 <= b < |rest| && ClientId(rest[a]) == ClientId(rest[b]) ensures a == b {
        assert ClientId(cs[a + 1]) == ClientId(cs[b + 1]);
      }
    }
    forall j | 0 <= j < |clients| && j != p ensures clients[j] in cs <==> clients[j] in rest {
      assert ClientId(clients[j]) != ClientId(clients[p]);
      assert cs == [cs[0]] + rest;
    }
  }

  // ------------------------------------------------------------- quota step

  /** The quota condition on the re-read row: a non-zero integer limit,
      usage at or above it, not blocked, active. */
  predicate ShouldBlock(u: Client) {
    u.trafficLimit.IntLimit? && u.trafficLimit.bytes != 0 && u.trafficUsed >= u.trafficLimit.bytes
    && !u.isBlocked && u.isActive
  }

  /** The row the quota step leaves for a client listed as `c`. */
  function QuotaRow(c: Client, stats: PeerStats): (r: Client)
    ensures SameRow(c, r) && r.trafficLimit == c.trafficLimit
    ensures r.isBlocked && !c.isBlocked ==>
      c.publicKey in stats && c.trafficLimit.IntLimit? && c.trafficLimit.bytes != 0
      && r.trafficUsed >= c.trafficLimit.bytes
  {
    if c.publicKey !in stats then c
    else
      var u := RefreshedRow(c, stats[c.publicKey]);
      if ShouldBlock(u) then u.(isBlocked := true) else u
  }

  /** One trip through the quota loop for the listed row `c`: refresh its
      traffic, then re-read and check it. False when the pass ends. */
  function QuotaOne(t: Tables, c: Client, stats: PeerStats): (r: (Tables, bool))
    requires ValidTables(t)
    ensures ValidTables(r.0)
  {
    if c.publicKey !in stats then (t, true)
    else BlockIfOver(UpdateTrafficSpec(t, c, stats[c.publicKey]), c.id)
  }

  /** Re-read the client (a missing row raises) and block it if over quota
      (a failing update raises). */
  function BlockIfOver(t: Tables, id: Option<int>): (r: (Tables, bool))
    requires ValidTables(t)
    ensures ValidTables(r.0)
  {
    var reread := if id.Some? then GetClient(t, id.value) else None;
    match reread
    case None => (t, false)
    case Some(u) =>
      if ShouldBlock(u) then
        var w := UpdateClientSpec(t, u.(isBlocked := true));
        UpdateClientSpecOutcome(t, u.(isBlocked := true));
        (w.0, w.1.Ok?)
      else (t, true)
  }

  lemma BlockIfOverStored(t: Tables, p: int)
    requires ValidTables(t) && 0 <= p < |t.clients|
    ensures var u := t.clients[p];
      BlockIfOver(t, u.id) == (t.(clients := t.clients[p := if ShouldBlock(u) then u.(isBlocked := true) else u]), true)
  {
    var u := t.clients[p];
    GetClientUnique(t, p);
    if ShouldBlock(u) {
      StoredRowWrite(t, p, u.(isBlocked := true));
    } else {
      assert t.clients[p := u] == t.clients;
    }
  }

  function QuotaAll(t: Tables, cs: seq<Client>, stats: PeerStats): (r: (Tables, bool))
    requires ValidTables(t)
    ensures ValidTables(r.0)
    decreases |cs|
  {
    if cs == [] then (t, true)
    else
      var step := QuotaOne(t, cs[0], stats);
      if !step.1 then step else QuotaAll(step.0, cs[1..], stats)
  }

  /** The quota step on a stored row changes that row into `QuotaRow` and
      nothing else, and does not fail. */
  lemma QuotaOneEffect(t: Tables, p: int, stats: PeerStats)
    requires ValidTables(t) && 0 <= p < |t.clients|
    ensures var r := QuotaOne(t, t.clients[p], stats);
      r.1 && r.0.clients == t.clients[p := QuotaRow(t.clients[p], stats)]
  {
    var x := t.clients[p];
    if x.publicKey in stats {
      var u := RefreshedRow(x, stats[x.publicKey]);
      var v := if ShouldBlock(u) then u.(isBlocked := true) else u;
      QuotaOneListed(t, p, stats[x.publicKey], u);
      assert QuotaOne(t, x, stats) == BlockIfOver(UpdateTrafficSpec(t, x, stats[x.publicKey]), x.id);
      assert QuotaRow(x, stats) == v;
    } else {
      assert t.clients[p := x] == t.clients;
    }
  }

  lemma QuotaOneListed(t: Tables, p: int, cs: map<string, string>, u: Client)
    requires ValidTables(t) && 0 <= p < |t.clients| && u == RefreshedRow(t.clients[p], cs)
    ensures var v := if ShouldBlock(u) then u.(isBlocked := true) else u;
      BlockIfOver(UpdateTrafficSpec(t, t.clients[p], cs), t.clients[p].id) == (t.(clients := t.clients[p := v]), true)
  {
    UpdateTrafficWrites(t, p, cs);
    BlockAfterWrite(t, p, u, UpdateTrafficSpec(t, t.clients[p], cs));
  }

  /** The re-read and check after the row at `p` was written as `u`. */
  lemma BlockAfterWrite(t: Tables, p: int, u: Client, t1: Tables)
    requires ValidTables(t) && 0 <= p < |t.clients| && u.id == t.clients[p].id
    requires ValidTables(t1) && t1 == t.(clients := t.clients[p := u])
    ensures var v := if ShouldBlock(u) then u.(isBlocked := true) else u;
      BlockIfOver(t1, t.clients[p].id) == (t.(clients := t.clients[p := v]), true)
  {
    assert t1.clients[p] == u;
    BlockIfOverStored(t1, p);
    var v := if ShouldBlock(u) then u.(isBlocked := true) else u;
    assert t1.clients[p := v] == t.clients[p := v];
  }

  lemma {:induction false} QuotaAllEffect(t: Tables, cs: seq<Client>, stats: PeerStats)
    requires ValidTables(t)
    requires forall i :: 0 <= i < |cs| ==> cs[i] in t.clients
    requires Lists.KeysDistinct(cs, ClientId)
    ensures var r := QuotaAll(t, cs, stats);
      r.1 && |r.0.clients| == |t.clients|
      && forall j :: 0 <= j < |t.clients| ==>
        r.0.clients[j] == if t.clients[j] in cs then QuotaRow(t.clients[j], stats) else t.clients[j]
    decreases |cs|
  {
    if cs != [] {
      var x := cs[0];
      var p :| 0 <= p < |t.clients| && t.clients[p] == x;
      QuotaOneEffect(t, p, stats);
      var t1 := QuotaOne(t, x, stats).0;
      var rest := cs[1..];
      TailListed(t.clients, cs, p, t1.clients);
      QuotaAllEffect(t1, rest, stats);
      forall j | 0 <= j < |t.clients|
        ensures QuotaAll(t, cs, stats).0.clients[j] ==
          if t.clients[j] in cs then QuotaRow(t.clients[j], stats) else t.clients[j]
      {
        if j != p {
          assert t1.clients[j] == t.clients[j];
        }
      }
    }
  }

  // ------------------------------------------------------------- one pass

  /** The store once every expired, active, unblocked client is blocked. */
  function ExpireRows(t: Tables, now: int): (r: Tables)
    ensures |r.clients| == |t.clients| && forall j :: 0 <= j < |t.clients| ==> r.clients[j] == ExpireRow(t.clients[j], now)
  {
    t.(clients := seq(|t.clients|, j requires 0 <= j < |t.clients| => ExpireRow(t.clients[j], now)))
  }

  /** One iteration of the `while True` loop of `check_client_limits`, at
      time `now` on day `today`, with `awg show` answering `plain` (and
      `sudo` when that fails). An exception ends the iteration early. */
  function PassSpec(t: Tables, now: int, today: string, plain: Completed, sudo: Completed): (r: Tables)
    requires ValidTables(t)
    ensures ValidTables(r)
  {
    var expired := ExpireAll(t, GetExpiredClients(t, now));
    if !expired.1 then expired.0
    else
      var read := InterfaceStatsSpec(expired.0, plain, sudo, today, now);
      QuotaAll(read.1, GetAllClients(read.1), read.0).0
  }

  lemma ExpiryStep(t: Tables, now: int)
    requires ValidTables(t)
    ensures ExpireAll(t, GetExpiredClients(t, now)) == (ExpireRows(t, now), true)
  {
    var cs := GetExpiredClients(t, now);
    Lists.FilterKeepsDistinct(t.clients, ExpiredBefore(now), ClientId);
    forall i | 0 <= i < |cs| ensures cs[i] in t.clients {
      assert cs[i] in cs;
    }
    ExpireAllEffect(t, cs);
    var r := ExpireAll(t, cs).0;
    forall j | 0 <= j < |t.clients| ensures r.clients[j] == ExpireRow(t.clients[j], now) {
      assert t.clients[j] in cs <==> ExpiredBefore(now)(t.clients[j]);
    }
    assert r.clients == ExpireRows(t, now).clients;
  }

  lemma QuotaStep(t: Tables, stats: PeerStats)
    requires ValidTables(t)
    ensures var r := QuotaAll(t, GetAllClients(t), stats);
      r.1 && |r.0.clients| == |t.clients|
      && forall j :: 0 <= j < |t.clients| ==> r.0.clients[j] == QuotaRow(t.clients[j], stats)
  {
    var cs := GetAllClients(t);
    Lists.ReorderKeepsDistinct(t.clients, cs, ClientId);
    forall i | 0 <= i < |cs| ensures cs[i] in t.clients {
      Lists.SortDescMembers(t.clients, CreatedKey, cs[i]);
    }
    QuotaAllEffect(t, cs, stats);
    forall j | 0 <= j < |t.clients| ensures t.clients[j] in cs {
      Lists.SortDescMembers(t.clients, CreatedKey, t.clients[j]);
    }
  }

  /** What one pass does to each client, with `stats` and `t2` what the
      `awg show` read returned and left: the row is first expired, then,
      after the read, refreshed and checked against its quota. Nothing is
      ever unblocked, re-keyed, activated or deactivated, added or removed. */
  lemma PassEffect(t: Tables, now: int, today: string, plain: Completed, sudo: Completed)
    requires ValidTables(t)
    ensures var read := InterfaceStatsSpec(ExpireRows(t, now), plain, sudo, today, now);
      var r := PassSpec(t, now, today, plain, sudo);
      Evolves(t, r)
      && Evolves(ExpireRows(t, now), read.1) && Evolves(read.1, r)
      && (forall j :: 0 <= j < |t.clients| ==> r.clients[j] == QuotaRow(read.1.clients[j], read.0))
      && forall j :: 0 <= j < |t.clients| && ExpiredBefore(now)(t.clients[j]) && t.clients[j].isActive ==>
        r.clients[j].isBlocked
  {
    ExpiryStep(t, now);
    var t1 := ExpireRows(t, now);
    var read := InterfaceStatsSpec(t1, plain, sudo, today, now);
    StatsEvolves(t1, plain, sudo, today, now);
    QuotaStep(read.1, read.0);
    var r := PassSpec(t, now, today, plain, sudo);
    assert Evolves(t, t1);
    assert Evolves(read.1, r) by {
      forall j | 0 <= j < |read.1.clients| ensures SameRow(read.1.clients[j], r.clients[j]) {
        assert r.clients[j] == QuotaRow(read.1.clients[j], read.0);
      }
    }
    EvolvesTrans(t, t1, read.1);
    EvolvesTrans(t, read.1, r);
    forall j | 0 <= j < |t.clients| && ExpiredBefore(now)(t.clients[j]) && t.clients[j].isActive
      ensures r.clients[j].isBlocked
    {
      BlockedThrough(t1, read.1, r, j);
    }
  }

  /** A client past its expiry date that is active ends the pass blocked. */
  lemma ExpiredEndsBlocked(t: Tables, now: int, today: string, plain: Completed, sudo: Completed, j: int)
    requires ValidTables(t) && 0 <= j < |t.clients|
    requires ExpiredBefore(now)(t.clients[j]) && t.clients[j].isActive
    ensures var r := PassSpec(t, now, today, plain, sudo); j < |r.clients| && r.clients[j].isBlocked
  {
    PassEffect(t, now, today, plain, sudo);
  }

  lemma BlockedThrough(t1: Tables, t2: Tables, t3: Tables, j: int)
    requires Evolves(t1, t2) && Evolves(t2, t3) && 0 <= j < |t1.clients| && t1.clients[j].isBlocked
    ensures j < |t3.clients| && t3.clients[j].isBlocked
  {
    assert SameRow(t1.clients[j], t2.clients[j]);
    assert SameRow(t2.clients[j], t3.clients[j]);
  }

  /** A client whose limit is missing, zero or not an integer is never
      blocked by the quota check, and a blocked client stays blocked. */
  lemma NoQuotaNoBlock(c: Client, stats: PeerStats)
    requires !(c.trafficLimit.IntLimit? && c.trafficLimit.bytes != 0)
    ensures QuotaRow(c, stats).isBlocked == c.isBlocked
  {
  }

  /** A listed client whose refreshed usage is at or above a non-zero integer
      limit, and which is active, ends the quota check blocked. */
  lemma OverQuotaBlocked(c: Client, stats: PeerStats)
    requires c.publicKey in stats && c.isActive
    requires c.trafficLimit.IntLimit? && c.trafficLimit.bytes != 0
    requires RefreshedRow(c, stats[c.publicKey]).trafficUsed >= c.trafficLimit.bytes
    ensures QuotaRow(c, stats).isBlocked
  {
  }

  // --------------------------------------------------------------- methods

  /** `update_client_traffic_usage_main(client, stats)` against the store. */
  method UpdateClientTrafficUsageMain(db: Database, c: Client, stats: map<string, string>)
    requires db.Valid()
    modifies db
    ensures db.Valid()
    ensures db.State() == UpdateTrafficSpec(old(db.State()), c, stats)
  {
    if stats == map[] {
      return;
    }
    var transfer := if "transfer" in stats then stats["transfer"] else "0 B, 0 B";
    var total := TrafficTotal(transfer);
    if total.None? {
      return;
    }
    if total.value != c.trafficUsed {
      var _ := db.UpdateClient(c.(trafficUsed := total.value));
    }
  }

  /** One iteration of `check_client_limits`. */
  method CheckClientLimits(db: Database, now: int, today: string, plain: Completed, sudo: Completed)
    requires db.Valid()
    modifies db
    ensures db.Valid()
    ensures db.State() == PassSpec(old(db.State()), now, today, plain, sudo)
  {
    var expired := GetExpiredClients(db.State(), now);
    var ok := BlockExpired(db, expired);
    if !ok {
      return;
    }
    var stats := GetInterfaceStats(db, plain, sudo, today, now);
    var all := GetAllClients(db.State());
    ok := CheckQuotas(db, all, stats);
  }

  /** The expiry loop; false when an update raised. */
  method BlockExpired(db: Database, cs: seq<Client>) returns (ok: bool)
    requires db.Valid()
    modifies db
    ensures db.Valid()
    ensures (db.State(), ok) == ExpireAll(old(db.State()), cs)
  {
    ghost var target := ExpireAll(db.State(), cs);
    for i := 0 to |cs|
      invariant db.Valid() && ExpireAll(db.State(), cs[i..]) == target
    {
      var c := cs[i];
      assert cs[i..][1..] == cs[i + 1..];
      if !c.isBlocked && c.isActive {
        var r := db.UpdateClient(c.(isBlocked := true));
        if r.Err? {
          return false;
        }
      }
    }
    return true;
  }

  /** The quota loop over the listed clients; false when the pass ended
      with an exception. */
  method CheckQuotas(db: Database, cs: seq<Client>, stats: PeerStats) returns (ok: bool)
    requires db.Valid()
    modifies db
    ensures db.Valid()
    ensures (db.State(), ok) == QuotaAll(old(db.State()), cs, stats)
  {
    ghost var target := QuotaAll(db.State(), cs, stats);
    for i := 0 to |cs|
      invariant db.Valid() && QuotaAll(db.State(), cs[i..], stats) == target
    {
      assert cs[i..][1..] == cs[i + 1..];
      var stepOk := CheckQuota(db, cs[i], stats);
      if !stepOk {
        return false;
      }
    }
    return true;
  }

  /** The body of the quota loop for one listed client. */
  method CheckQuota(db: Database, c: Client, stats: PeerStats) returns (ok: bool)
    requires db.Valid()
    modifies db
    ensures db.Valid()
    ensures (db.State(), ok) == QuotaOne(old(db.State()), c, stats)
  {
    if c.publicKey !in stats {
      return true;
    }
    UpdateClientTrafficUsageMain(db, c, stats[c.publicKey]);
    var updated := if c.id.Some? then GetClient(db.State(), c.id.value) else None;
    if updated.None? {
      return false;
    }
    var u := updated.value;
    if ShouldBlock(u) {
      var r := db.UpdateClient(u.(isBlocked := true));
      return r.Ok?;
    }
    return true;
  }
}
