/** What every run of all the writers keeps: device status, foreign keys and the fleet's totals. */
module StoreLaws {
  import opened Text
  import opened Store
  import opened StoreRuns
  import opened Topics

  // ---------- Status

  /** The device whose telemetry this action stores, with the status update going through. */
  function HeardBy(w: World, a: Action): Option<string> {
    match a
    case Ingest(device, _, metrics, _, _, ok, touched) =>
      if device != "" && metrics.Some? && ok && device in w.t.devices && touched then Some(device) else None
    case Publish(client, topic, payload, _, ok, touched) =>
      if client in w.sessions && ParseTelemetryTopic(topic) == Some(w.sessions[client].device) && payload.Some? && ok &&
         w.sessions[client].device in w.t.devices && touched
      then Some(w.sessions[client].device) else None
    case _ => None
  }

  function StillHeard(w: World, heard: set<string>, a: Action): set<string> {
    var device := HeardBy(w, a);
    if device.Some? then heard + {device.value}
    else if a.Delete? && a.ok then heard - {a.id}
    else heard
  }

  /** The devices for which telemetry was accepted, with its status update, since they were created. */
  function Heard(ttl: int, run: seq<Action>): set<string> {
    if run == [] then {}
    else StillHeard(After(ttl, run[..|run| - 1]), Heard(ttl, run[..|run| - 1]), run[|run| - 1])
  }

  ghost predicate StatusTells(t: Tables, heard: set<string>, d: string)
    requires d in t.devices
  {
    t.devices[d].status == if d in heard then "online" else "offline"
  }

  ghost predicate StatusesTell(t: Tables, heard: set<string>) {
    heard <= t.devices.Keys && forall d {:trigger StatusTells(t, heard, d)} | d in t.devices :: StatusTells(t, heard, d)
  }

  // ---------- Foreign keys

  function TelemetryDevices(rows: seq<Telemetry>): set<string> {
    if rows == [] then {} else {rows[0].device} + TelemetryDevices(rows[1..])
  }

  function CommandDevices(rows: seq<Command>): set<string> {
    if rows == [] then {} else {rows[0].device} + CommandDevices(rows[1..])
  }

  ghost predicate RefersToDevices(t: Tables) {
    TelemetryDevices(t.telemetry) <= t.devices.Keys && CommandDevices(t.commands) <= t.devices.Keys
  }

  lemma {:induction false} KeptDevices(rows: seq<Telemetry>, keep: Telemetry -> bool)
    ensures TelemetryDevices(KeepTelemetry(rows, keep)) <= TelemetryDevices(rows)
    ensures forall d | d in TelemetryDevices(KeepTelemetry(rows, keep)) ::
              exists r: Telemetry :: r.device == d && keep(r)
  {
    if rows != [] {
      KeptDevices(rows[1..], keep);
      var rest := KeepTelemetry(rows[1..], keep);
      if keep(rows[0]) {
        assert ([rows[0]] + rest)[1..] == rest;
      } else {
        assert [] + rest == rest;
      }
    }
  }

  lemma {:induction false} AppendedDevices(rows: seq<Telemetry>, r: Telemetry)
    ensures TelemetryDevices(rows + [r]) == TelemetryDevices(rows) + {r.device}
  {
    if rows == [] {
      assert [] + [r] == [r];
      assert TelemetryDevices([r]) == {r.device} + TelemetryDevices([r][1..]);
    } else {
      AppendedDevices(rows[1..], r);
      assert (rows + [r])[1..] == rows[1..] + [r];
    }
  }

  lemma {:induction false} AppendedCommandDevices(rows: seq<Command>, c: Command)
    ensures CommandDevices(rows + [c]) == CommandDevices(rows) + {c.device}
  {
    if rows == [] {
      assert [] + [c] == [c];
      assert CommandDevices([c]) == {c.device} + CommandDevices([c][1..]);
    } else {
      AppendedCommandDevices(rows[1..], c);
      assert (rows + [c])[1..] == rows[1..] + [c];
    }
  }

  lemma {:induction false} LeftDevices(rows: seq<Command>, device: string)
    ensures CommandDevices(WithoutDevice(rows, device)) == CommandDevices(rows) - {device}
  {
    if rows != [] {
      LeftDevices(rows[1..], device);
      var rest := WithoutDevice(rows[1..], device);
      if rows[0].device == device {
        assert [] + rest == rest;
      } else {
        assert ([rows[0]] + rest)[1..] == rest;
      }
    }
  }

  lemma {:induction false} UpdatedDevices(rows: seq<Command>, id: string, status: string, result: string,
                                          org: string, now: int)
    ensures CommandDevices(SetResult(rows, id, status, result, org, now)) == CommandDevices(rows)
    ensures CommandDevices(Mark(rows, id)) == CommandDevices(rows)
  {
    if rows != [] {
      UpdatedDevices(rows[1..], id, status, result, org, now);
    }
  }

  lemma {:induction false} LeftExactly(rows: seq<Command>, device: string, c: Command)
    ensures c in WithoutDevice(rows, device) <==> c in rows && c.device != device
  {
    if rows != [] {
      LeftExactly(rows[1..], device, c);
      assert rows == [rows[0]] + rows[1..];
    }
  }

  lemma {:induction false} KeptExactly(rows: seq<Telemetry>, keep: Telemetry -> bool, r: Telemetry)
    ensures r in KeepTelemetry(rows, keep) <==> r in rows && keep(r)
  {
    if rows != [] {
      KeptExactly(rows[1..], keep, r);
      assert rows == [rows[0]] + rows[1..];
    }
  }

  /** Both cascades: a deletion takes the device's own telemetry and commands with it, and nothing else. */
  lemma CascadeExactly(t: Tables, id: string)
    requires id in t.devices
    ensures var u := DeleteDevice(t, id, true);
            u.devices == t.devices - {id} &&
            (forall r :: r in u.telemetry <==> r in t.telemetry && r.device != id) &&
            (forall c :: c in u.commands <==> c in t.commands && c.device != id)
  {
    var u := DeleteDevice(t, id, true);
    forall r ensures r in u.telemetry <==> r in t.telemetry && r.device != id {
      KeptExactly(t.telemetry, NotOf(id), r);
    }
    forall c ensures c in u.commands <==> c in t.commands && c.device != id { LeftExactly(t.commands, id, c); }
  }

  // ---------- One writer at a time

  ghost predicate Sound(t: Tables, heard: set<string>) {
    StatusesTell(t, heard) && RefersToDevices(t)
  }

  lemma SameStatuses(t: Tables, u: Tables, heard: set<string>)
    requires StatusesTell(t, heard) && u.devices.Keys == t.devices.Keys
    requires forall d | d in t.devices :: u.devices[d].status == t.devices[d].status
    ensures StatusesTell(u, heard)
  {
    forall d {:trigger StatusTells(u, heard, d)} | d in u.devices ensures StatusTells(u, heard, d) {
      assert StatusTells(t, heard, d);
    }
  }

  lemma CreateKeeps(t: Tables, heard: set<string>, id: string, secret: string, req: DeviceRequest, org: string,
                    now: int, ok: bool)
    requires Sound(t, heard)
    ensures Sound(CreateDevice(t, id, secret, req, org, now, ok), heard)
  {
    var u := CreateDevice(t, id, secret, req, org, now, ok);
    forall d {:trigger StatusTells(u, heard, d)} | d in u.devices ensures StatusTells(u, heard, d) {
      if d in t.devices { assert StatusTells(t, heard, d); }
    }
  }

  lemma DeleteKeeps(t: Tables, heard: set<string>, id: string, ok: bool)
    requires Sound(t, heard)
    ensures Sound(DeleteDevice(t, id, ok), if ok then heard - {id} else heard)
  {
    var u, left := DeleteDevice(t, id, ok), if ok then heard - {id} else heard;
    KeptDevices(t.telemetry, NotOf(id));
    LeftDevices(t.commands, id);
    forall d {:trigger StatusTells(u, left, d)} | d in u.devices ensures StatusTells(u, left, d) {
      assert StatusTells(t, heard, d);
    }
  }

  lemma StoreKeeps(t: Tables, heard: set<string>, device: string, ts: int, metrics: Option<string>,
                   metadata: Option<string>,
                   org: string, ok: bool, touched: bool)
    requires Sound(t, heard)
    ensures Sound(StoreTelemetry(t, device, ts, metrics, metadata, org, ok, touched),
                  if metrics.Some? && ok && device in t.devices && touched then heard + {device} else heard)
  {
    if metrics.Some? && ok && device in t.devices {
      var row := Telemetry(t.nextRow, device, org, ts, metrics.value, OrElse(metadata, "{}"));
      AppendedDevices(t.telemetry, row);
      var u := StoreTelemetry(t, device, ts, metrics, metadata, org, ok, touched);
      var now := if touched then heard + {device} else heard;
      forall d {:trigger StatusTells(u, now, d)} | d in u.devices ensures StatusTells(u, now, d) {
        assert StatusTells(t, heard, d);
      }
    }
  }

  lemma PruneKeeps(t: Tables, heard: set<string>, cutoff: int, ok: bool)
    requires Sound(t, heard)
    ensures Sound(Prune(t, cutoff, ok), heard)
  {
    KeptDevices(t.telemetry, Since(cutoff));
    SameStatuses(t, Prune(t, cutoff, ok), heard);
  }

  lemma SendKeeps(t: Tables, heard: set<string>, id: string, device: string, name: string, body: Option<string>,
                  org: string,
                  now: int, ok: bool)
    requires Sound(t, heard)
    ensures Sound(SendCommand(t, id, device, name, body, org, now, ok), heard)
  {
    AppendedCommandDevices(t.commands, Command(id, device, name, OrElse(body, "{}"), "pending", None, now, None, org));
    SameStatuses(t, SendCommand(t, id, device, name, body, org, now, ok), heard);
  }

  lemma ReportKeeps(t: Tables, heard: set<string>, id: string, status: string, result: string, org: string, now: int,
                    ok: bool)
    requires Sound(t, heard)
    ensures Sound(ReportResult(t, id, status, result, org, now, ok), heard)
  {
    UpdatedDevices(t.commands, id, status, result, org, now);
    SameStatuses(t, ReportResult(t, id, status, result, org, now, ok), heard);
  }

  lemma MarkKeeps(t: Tables, heard: set<string>, id: string, ok: bool)
    requires Sound(t, heard)
    ensures Sound(MarkDelivered(t, id, ok), heard)
  {
    UpdatedDevices(t.commands, id, "", "", "", 0);
    SameStatuses(t, MarkDelivered(t, id, ok), heard);
  }

  lemma TablesKeep(ttl: int, w: World, heard: set<string>, a: Action)
    requires Sound(w.t, heard)
    ensures Sound(TablesAfter(ttl, w, a), StillHeard(w, heard, a))
  {
    var t := w.t;
    match a
    case Create(id, secret, req, org, now, ok) => CreateKeeps(t, heard, id, secret, req, org, now, ok);
    case Update(id, req, now, ok) => SameStatuses(t, UpdateDevice(t, id, req, now, ok), heard);
    case Delete(id, ok) => DeleteKeeps(t, heard, id, ok);
    case Tag(id, org, tags, ok) => SameStatuses(t, AddTags(t, id, org, tags, ok), heard);
    case Group(id, org, group, ok) => SameStatuses(t, SetGroup(t, id, org, group, ok), heard);
    case Ingest(device, ts, metrics, metadata, org, ok, touched) =>
      if device != "" { StoreKeeps(t, heard, device, ts, metrics, metadata, org, ok, touched); }
    case Publish(client, topic, payload, now, ok, touched) =>
      if client in w.sessions && ParseTelemetryTopic(topic) == Some(w.sessions[client].device) && payload.Some? {
        var s := w.sessions[client];
        StoreKeeps(t, heard, s.device, now, payload, None, s.org, ok, touched);
      }
    case PruneAt(now, ok) => PruneKeeps(t, heard, now - ttl, ok);
    case Send(cmd, device, name, body, org, now, ok) => SendKeeps(t, heard, cmd, device, name, body, org, now, ok);
    case Report(cmd, status, result, org, now, ok) => ReportKeeps(t, heard, cmd, status, result, org, now, ok);
    case MarkRead(l, ok) =>
      if l in w.listeners && w.listeners[l].reading.Some? { MarkKeeps(t, heard, w.listeners[l].reading.value, ok); }
    case _ =>
  }

  // ---------- Every run

  lemma {:induction false} RunKeeps(ttl: int, run: seq<Action>)
    ensures Sound(After(ttl, run).t, Heard(ttl, run))
  {
    if run != [] {
      var front := run[..|run| - 1];
      RunKeeps(ttl, front);
      TablesKeep(ttl, After(ttl, front), Heard(ttl, front), run[|run| - 1]);
    }
  }

  lemma {:induction false} TelemetryListed(rows: seq<Telemetry>, r: Telemetry)
    requires r in rows
    ensures r.device in TelemetryDevices(rows)
  {
    if r != rows[0] { TelemetryListed(rows[1..], r); }
  }

  lemma {:induction false} CommandListed(rows: seq<Command>, c: Command)
    requires c in rows
    ensures c.device in CommandDevices(rows)
  {
    if c != rows[0] { CommandListed(rows[1..], c); }
  }

  /** In every reachable state each telemetry and command row refers to an existing device. */
  lemma RowsRefer(ttl: int, run: seq<Action>)
    ensures var t := After(ttl, run).t;
            (forall r | r in t.telemetry :: r.device in t.devices) &&
            (forall c | c in t.commands :: c.device in t.devices)
  {
    RunKeeps(ttl, run);
    var t := After(ttl, run).t;
    forall r | r in t.telemetry ensures r.device in t.devices { TelemetryListed(t.telemetry, r); }
    forall c | c in t.commands ensures c.device in t.devices { CommandListed(t.commands, c); }
  }

  /** In every reachable state a device is 'online' exactly when telemetry was accepted for it since its
      creation, and 'offline' otherwise. */
  lemma OnlineExactlyWhenHeard(ttl: int, run: seq<Action>, d: string)
    requires d in After(ttl, run).t.devices
    ensures var status := After(ttl, run).t.devices[d].status;
            (status == "online" <==> d in Heard(ttl, run)) && (status == "offline" <==> d !in Heard(ttl, run))
  {
    RunKeeps(ttl, run);
    assert StatusTells(After(ttl, run).t, Heard(ttl, run), d);
  }

  /** In every reachable state the fleet health of each organisation adds up. */
  lemma HealthAddsUp(ttl: int, run: seq<Action>, org: string)
    ensures var h := FleetHealth(After(ttl, run).t, org); h.total == h.online + h.offline
  {
    var t := After(ttl, run).t;
    var online, offline := WithStatus(t, org, "online"), WithStatus(t, org, "offline");
    forall d | d in InOrg(t, org) ensures d in online || d in offline {
      OnlineExactlyWhenHeard(ttl, run, d);
    }
    assert InOrg(t, org) == online + offline && online !! offline;
  }
}
