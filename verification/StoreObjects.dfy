/** The modules as the objects the server holds: each handler is proved against the statements of Store, which
    the laws over runs are about. */
module StoreObjects {
  import opened Text
  import opened Store
  import opened StoreRuns
  import opened Topics
  import RetentionLaws
  import CommandLaws
  import DeliveryLaws
  import Events
  import StoreLaws

  datatype Reply = Done | BadRequest | NotFound | Failed

  class Database {
    var devices: map<string, Device>
    var telemetry: seq<Telemetry>
    var nextRow: int
    var commands: seq<Command>

    constructor ()
      ensures State() == EMPTY.t
    {
      devices, telemetry, nextRow, commands := map[], [], 1, [];
    }

    function State(): Tables
      reads this
    {
      Tables(devices, telemetry, nextRow, commands)
    }
  }

  /** What an action of the runs does to the tables. */
  function Acted(t: Tables, a: Action): Tables {
    TablesAfter(0, World(t, map[], map[]), a)
  }

  /** What a registration answers with. */
  datatype Registered = Registered(
    id: string, name: string, kind: string, org: string, status: string, group: string, metadata: Option<string>,
    tags: Option<string>, created: int, updated: int, secret: string)

  /** The answer tells the row under id truthfully, except for its group. */
  ghost predicate Matches(answer: Registered, id: string, row: Device, req: DeviceRequest) {
    answer.id == id && answer.secret == row.secret && answer.name == row.name && answer.kind == row.kind &&
    answer.org == row.org && answer.status == row.status && answer.created == row.created &&
    answer.updated == row.updated && answer.group == "" && answer.metadata == req.metadata && answer.tags == req.tags
  }

  class DeviceModule {
    const db: Database

    constructor (db: Database)
      ensures this.db == db
    {
      this.db := db;
    }

    /** The answer leaves the group out and gives metadata and tags as they came, not as they are stored. */
    method CreateDevice(id: string, secret: string, req: DeviceRequest, org: string, now: int, ok: bool)
      returns (answer: Option<Registered>)
      modifies db
      ensures db.State() == Acted(old(db.State()), Create(id, secret, req, org, now, ok))
      ensures answer.Some? <==> ok && id !in old(db.devices)
      ensures var row := Device(req.name, req.kind, secret, if req.metadata.Some? then req.metadata.value else "{}",
                                if req.tags.Some? then req.tags.value else "[]", req.group, org, "offline", None,
                                now, now);
              db.State() == old(db.State()).(
                devices := if answer.Some? then old(db.devices)[id := row] else old(db.devices))
      ensures answer.Some? ==> Matches(answer.value, id, db.devices[id], req)
    {
      var metadata, tags := "{}", "[]";
      if req.metadata.Some? { metadata := req.metadata.value; }
      if req.tags.Some? { tags := req.tags.value; }
      if !ok || id in db.devices { return None; }
      db.devices := db.devices[id :=
        Device(req.name, req.kind, secret, metadata, tags, req.group, org, "offline", None, now, now)];
      var device := Registered(id, req.name, req.kind, org, "offline", "", None, None, now, now, secret);
      if req.metadata.Some? { device := device.(metadata := req.metadata); }
      device := device.(tags := req.tags);
      return Some(device);
    }

    /** The update, then getDevice, whose reading of the row may fail. */
    method UpdateDevice(id: string, req: DeviceRequest, now: int, ok: bool, read: bool) returns (device: Option<Device>)
      modifies db
      ensures db.State() == Acted(old(db.State()), Update(id, req, now, ok))
      ensures db.State() == old(db.State()).(devices := db.devices) && db.devices.Keys == old(db.devices.Keys)
      ensures forall d | d in db.devices ::
                db.devices[d] ==
                if d != id || !ok then old(db.devices)[d]
                else old(db.devices)[d].(
                  name := req.name, kind := req.kind, group := req.group, updated := now,
                  metadata := if req.metadata.Some? then req.metadata.value else "{}",
                  tags := if req.tags.Some? then req.tags.value else "[]")
      ensures device == if ok && read && id in db.devices then Some(db.devices[id]) else None
    {
      if !ok { return None; }
      if id in db.devices {
        var d := db.devices[id];
        d := d.(name := req.name, kind := req.kind, group := req.group, updated := now);
        d := d.(metadata := OrElse(req.metadata, "{}"), tags := OrElse(req.tags, "[]"));
        db.devices := db.devices[id := d];
      }
      if !read || id !in db.devices { return None; }
      return Some(db.devices[id]);
    }

    /** Deleting a device that is not there is no error. */
    method DeleteDevice(id: string, ok: bool) returns (deleted: bool)
      modifies db
      ensures db.State() == Acted(old(db.State()), Delete(id, ok))
      ensures deleted <==> ok
      ensures ok ==>
                db.devices == old(db.devices) - {id} && db.nextRow == old(db.nextRow) &&
                (id in old(db.devices) ==>
                   (forall r :: r in db.telemetry <==> r in old(db.telemetry) && r.device != id) &&
                   (forall c :: c in db.commands <==> c in old(db.commands) && c.device != id))
      ensures !ok || id !in old(db.devices) ==> db.State() == old(db.State())
    {
      if id in db.devices { StoreLaws.CascadeExactly(db.State(), id); }
      if !ok { return false; }
      if id in db.devices {
        db.devices := db.devices - {id};
        db.telemetry := KeepTelemetry(db.telemetry, NotOf(id));
        db.commands := WithoutDevice(db.commands, id);
      }
      return true;
    }
  }

  lemma OneLess(s: set<string>, todo: set<string>, d: string)
    requires d in todo
    ensures |s - (todo - {d})| == |s - todo| + if d in s then 1 else 0
  {
    if d in s {
      assert s - (todo - {d}) == (s - todo) + {d};
    } else {
      assert s - (todo - {d}) == s - todo;
    }
  }

  lemma {:induction false} SubsetSize(a: set<string>, b: set<string>)
    requires a <= b
    ensures |a| <= |b|
  {
    if a != {} {
      assert (forall x :: x !in a) ==> a == {};
      var x :| x in a;
      SubsetSize(a - {x}, b - {x});
    }
  }

  /** What the counters hold when the devices in todo are still to be looked at. */
  ghost predicate Counted(t: Tables, org: string, todo: set<string>, h: Health) {
    h.total == |InOrg(t, org) - todo| &&
    h.online == |WithStatus(t, org, "online") - todo| && h.offline == |WithStatus(t, org, "offline") - todo|
  }

  function CountOne(h: Health, d: Device, org: string): Health {
    if d.org != org then h
    else Health(h.total + 1, h.online + (if d.status == "online" then 1 else 0),
                h.offline + (if d.status == "offline" then 1 else 0))
  }

  lemma CountedOne(t: Tables, org: string, todo: set<string>, h: Health, d: string)
    requires todo <= t.devices.Keys && d in todo && Counted(t, org, todo, h)
    ensures Counted(t, org, todo - {d}, CountOne(h, t.devices[d], org))
  {
    OneLess(InOrg(t, org), todo, d);
    OneLess(WithStatus(t, org, "online"), todo, d);
    OneLess(WithStatus(t, org, "offline"), todo, d);
  }

  lemma CountingEnds(t: Tables, org: string, h: Health)
    ensures Counted(t, org, t.devices.Keys, Health(0, 0, 0))
    ensures Counted(t, org, {}, h) ==> h == FleetHealth(t, org) && h.online + h.offline <= h.total
  {
    var online, offline := WithStatus(t, org, "online"), WithStatus(t, org, "offline");
    assert InOrg(t, org) - t.devices.Keys == {} && online - t.devices.Keys == {} && offline - t.devices.Keys == {};
    assert InOrg(t, org) - {} == InOrg(t, org) && online - {} == online && offline - {} == offline;
    assert online !! offline;
    SubsetSize(online + offline, InOrg(t, org));
  }

  class FleetModule {
    const db: Database

    constructor (db: Database)
      ensures this.db == db
    {
      this.db := db;
    }

    method HandleAddTags(id: string, tags: string, org: string, ok: bool) returns (reply: Reply)
      modifies db
      ensures db.State() == Acted(old(db.State()), Tag(id, org, tags, ok))
      ensures reply == if !ok then Failed
                       else if id in old(db.devices) && old(db.devices)[id].org == org then Done else NotFound
      ensures db.State() == old(db.State()).(
                devices := if reply.Done? then old(db.devices)[id := old(db.devices)[id].(tags := tags)]
                           else old(db.devices))
    {
      if !ok { return Failed; }
      if id !in db.devices || db.devices[id].org != org { return NotFound; }
      db.devices := db.devices[id := db.devices[id].(tags := tags)];
      return Done;
    }

    method HandleSetGroup(id: string, group: string, org: string, ok: bool) returns (reply: Reply)
      modifies db
      ensures db.State() == Acted(old(db.State()), Group(id, org, group, ok))
      ensures reply == if !ok then Failed
                       else if id in old(db.devices) && old(db.devices)[id].org == org then Done else NotFound
      ensures db.State() == old(db.State()).(
                devices := if reply.Done? then old(db.devices)[id := old(db.devices)[id].(group := group)]
                           else old(db.devices))
    {
      if !ok { return Failed; }
      if id !in db.devices || db.devices[id].org != org { return NotFound; }
      db.devices := db.devices[id := db.devices[id].(group := group)];
      return Done;
    }

    /** One pass over the device table with three counters; a failed query leaves them at zero. */
    method HandleHealth(org: string, ok: bool) returns (health: Health)
      ensures health == if ok then FleetHealth(db.State(), org) else Health(0, 0, 0)
      ensures ok ==>
                health.total == |set d | d in db.devices && db.devices[d].org == org| &&
                health.online ==
                  |set d | d in db.devices && db.devices[d].org == org && db.devices[d].status == "online"| &&
                health.offline ==
                  |set d | d in db.devices && db.devices[d].org == org && db.devices[d].status == "offline"|
      ensures health.online + health.offline <= health.total
    {
      health := Health(0, 0, 0);
      if !ok { return; }
      CountingEnds(db.State(), org, health);
      var todo := db.devices.Keys;
      while todo != {}
        invariant todo <= db.devices.Keys && Counted(db.State(), org, todo, health)
        decreases todo
      {
        assert (forall d :: d !in todo) ==> todo == {};
        var d :| d in todo;
        CountedOne(db.State(), org, todo, health, d);
        var row := db.devices[d];
        if row.org == org {
          health := health.(total := health.total + 1);
          if row.status == "online" { health := health.(online := health.online + 1); }
          if row.status == "offline" { health := health.(offline := health.offline + 1); }
        }
        todo := todo - {d};
      }
      CountingEnds(db.State(), org, health);
    }
  }

  type Conn = int
  type Hook = int

  datatype HookCall = HookCall(hook: Hook, device: string, metrics: string, metadata: string)

  /** The telemetry websockets. */
  class TelemetryHub {
    var clients: set<Conn>

    constructor ()
      ensures clients == {}
    {
      clients := {};
    }

    method Add(conn: Conn)
      modifies this
      ensures clients == old(clients) + {conn}
    {
      clients := clients + {conn};
    }

    method Remove(conn: Conn)
      modifies this
      ensures clients == old(clients) - {conn}
    {
      clients := clients - {conn};
    }

    /** Writes to every client exactly once, in some order, and leaves a removal for each failed write. */
    method Broadcast(broken: set<Conn>) returns (written: seq<Conn>, removals: seq<Conn>)
      ensures multiset(written) == multiset(clients) && multiset(removals) == multiset(clients * broken)
    {
      written, removals := [], [];
      var todo := clients;
      while todo != {}
        invariant todo <= clients
        invariant multiset(written) == multiset(clients - todo)
        invariant multiset(removals) == multiset((clients - todo) * broken)
        decreases todo
      {
        assert (forall c :: c !in todo) ==> todo == {};
        var conn :| conn in todo;
        Events.AudienceStep(clients, broken, todo, conn);
        written := written + [conn];
        if conn in broken { removals := removals + [conn]; }
        todo := todo - {conn};
      }
      assert clients - todo == clients;
    }
  }

  class TelemetryModule {
    const db: Database
    const hub: TelemetryHub
    const ttl: int
    var hooks: seq<Hook>

    constructor (db: Database, hub: TelemetryHub, ttl: int)
      ensures this.db == db && this.hub == hub && this.ttl == ttl && hooks == []
    {
      this.db, this.hub, this.ttl, hooks := db, hub, ttl, [];
    }

    method AddTelemetryHook(hook: Hook)
      modifies this
      ensures hooks == old(hooks) + [hook]
    {
      hooks := hooks + [hook];
    }

    /** told lists the websockets written to, called the hooks that were run and with what, both in order. */
    method Store(device: string, ts: int, metrics: Option<string>, metadata: Option<string>, org: string, ok: bool,
                 touched: bool, broken: set<Conn>) returns (id: Option<int>, told: seq<Conn>, called: seq<HookCall>)
      modifies db
      ensures db.State() == StoreTelemetry(old(db.State()), device, ts, metrics, metadata, org, ok, touched)
      ensures id == if metrics.Some? && ok && device in old(db.devices) then Some(old(db.nextRow)) else None
      ensures var data := if metadata.Some? then metadata.value else "{}";
              if id.None? then db.State() == old(db.State()) && told == [] && called == []
              else
                && db.State() == old(db.State()).(
                     telemetry := old(db.telemetry) + [Telemetry(id.value, device, org, ts, metrics.value, data)],
                     nextRow := id.value + 1,
                     devices := if touched
                                then old(db.devices)[device := old(db.devices)[device].(
                                       status := "online", lastSeen := Some(ts))]
                                else old(db.devices))
                && multiset(told) == multiset(hub.clients)
                && |called| == |hooks|
                && forall i | 0 <= i < |hooks| :: called[i] == HookCall(hooks[i], device, metrics.value, data)
    {
      if metrics.None? { return None, [], []; }
      var data := "{}";
      if metadata.Some? { data := metadata.value; }
      if !ok || device !in db.devices { return None, [], []; }
      var row := db.nextRow;
      db.telemetry := db.telemetry + [Telemetry(row, device, org, ts, metrics.value, data)];
      db.nextRow := row + 1;
      if touched {
        db.devices := db.devices[device := db.devices[device].(status := "online", lastSeen := Some(ts))];
      }
      var removals: seq<Conn>;
      told, removals := hub.Broadcast(broken);
      called := [];
      for i := 0 to |hooks|
        invariant |called| == i
        invariant forall k | 0 <= k < i :: called[k] == HookCall(hooks[k], device, metrics.value, data)
        invariant db.State() == StoreTelemetry(old(db.State()), device, ts, metrics, metadata, org, ok, touched)
      {
        called := called + [HookCall(hooks[i], device, metrics.value, data)];
      }
      return Some(row), told, called;
    }

    method HandleIngest(device: string, metrics: Option<string>, metadata: Option<string>, ts: Option<int>, now: int,
                        org: string, ok: bool, touched: bool, broken: set<Conn>) returns (reply: Reply)
      modifies db
      ensures var at := if ts.Some? then ts.value else now;
              db.State() == TablesAfter(ttl, World(old(db.State()), map[], map[]),
                                        Ingest(device, at, metrics, metadata, org, ok, touched))
      ensures reply == if device == "" || metrics.None? then BadRequest
                       else if ok && device in old(db.devices) then Done else Failed
      ensures !reply.Done? ==> db.State() == old(db.State())
      ensures reply.Done? ==>
                var at := if ts.Some? then ts.value else now;
                db.State() == old(db.State()).(
                  telemetry := old(db.telemetry) + [Telemetry(
                    old(db.nextRow), device, org, at, metrics.value,
                    if metadata.Some? then metadata.value else "{}")],
                  nextRow := old(db.nextRow) + 1,
                  devices := if touched
                             then old(db.devices)[device := old(db.devices)[device].(
                                    status := "online", lastSeen := Some(at))]
                             else old(db.devices))
    {
      if device == "" || metrics.None? { return BadRequest; }
      var at := now;
      if ts.Some? { at := ts.value; }
      var id, _, _ := Store(device, at, metrics, metadata, org, ok, touched, broken);
      return if id.Some? then Done else Failed;
    }

    method Prune(now: int, ok: bool)
      modifies db
      ensures db.State() == TablesAfter(ttl, World(old(db.State()), map[], map[]), PruneAt(now, ok))
      ensures db.State() == old(db.State()).(telemetry := db.telemetry)
      ensures if ok then forall r :: r in db.telemetry <==> r in old(db.telemetry) && r.ts >= now - ttl
              else db.telemetry == old(db.telemetry)
    {
      if !ok { return; }
      forall r ensures r in KeepTelemetry(db.telemetry, Since(now - ttl)) <==> r in db.telemetry && r.ts >= now - ttl {
        StoreLaws.KeptExactly(db.telemetry, Since(now - ttl), r);
      }
      db.telemetry := KeepTelemetry(db.telemetry, Since(now - ttl));
    }

    /** Collects the rows of the query, leaving out those that cannot be scanned. */
    method HandleQuery(device: string, org: string, limit: Option<int>, scans: Telemetry -> bool, ok: bool)
      returns (results: Option<seq<Telemetry>>)
      ensures results ==
        if ok then Some(KeepTelemetry(QueryTelemetry(db.State(), device, org,
            if limit.None? then 100 else limit.value), scans))
        else None
    {
      if !ok { return None; }
      var count := 100;
      if limit.Some? { count := limit.value; }
      var rows := QueryTelemetry(db.State(), device, org, count);
      var found: seq<Telemetry> := [];
      assert rows[0..] == rows;
      for i := 0 to |rows|
        invariant KeepTelemetry(rows, scans) == found + KeepTelemetry(rows[i..], scans)
      {
        RetentionLaws.KeepGrows(rows, i, scans, found);
        if !scans(rows[i]) { continue; }
        found := found + [rows[i]];
      }
      assert KeepTelemetry(rows, scans) == found + [] == found;
      return Some(found);
    }

    /** The newest matching row, found by the query with LIMIT 1. */
    method HandleLatest(device: string, org: string, ok: bool) returns (row: Option<Telemetry>)
      ensures row == if ok then RetentionLaws.Newest(KeepTelemetry(db.telemetry, Wanted(device, org))) else None
      ensures row.Some? ==> ok && RetentionLaws.Asked(db.State(), device, org, row.value)
      ensures ok ==> forall r | RetentionLaws.Asked(db.State(), device, org, r) :: row.Some? && r.ts <= row.value.ts
    {
      forall r ensures r in KeepTelemetry(db.telemetry, Wanted(device, org))
                       <==> RetentionLaws.Asked(db.State(), device, org, r)
      {
        StoreLaws.KeptExactly(db.telemetry, Wanted(device, org), r);
      }
      if !ok { return None; }
      RetentionLaws.LatestIsLimitOne(db.State(), device, org);
      var rows := QueryTelemetry(db.State(), device, org, 1);
      return if rows == [] then None else Some(rows[0]);
    }
  }

  lemma OneMore(s: set<string>, todo: set<string>, k: string)
    requires k in todo
    ensures multiset(s - (todo - {k})) == multiset(s - todo) + multiset(if k in s then {k} else {})
  {
  }

  class CommandModule {
    const db: Database
    /** Stored under the device id by a send, deleted under the command id by a result. */
    var pending: map<string, Command>

    constructor (db: Database)
      ensures this.db == db && pending == map[]
    {
      this.db, pending := db, map[];
    }

    /** The ids of the cached commands. */
    function Cache(): map<string, string>
      reads this
    {
      map k | k in pending :: pending[k].id
    }

    method HandleSend(id: string, device: string, name: string, payload: Option<string>, org: string, now: int,
                      ok: bool)
      returns (reply: Reply)
      modifies this, db
      ensures var a := Send(id, device, name, payload, org, now, ok);
              db.State() == Acted(old(db.State()), a) &&
              Cache() == DeliveryLaws.CacheAfter(old(db.State()), old(Cache()), a)
      ensures reply == if name == "" then BadRequest
                       else if ok && device in old(db.devices) && (forall c | c in old(db.commands) :: c.id != id)
                       then Done
                       else Failed
      ensures var cmd := Command(id, device, name, if payload.Some? then payload.value else "{}", "pending", None, now,
                                 None, org);
              db.State() == old(db.State()).(
                commands := if reply.Done? then old(db.commands) + [cmd] else old(db.commands)) &&
              pending == if reply.Done? then old(pending)[device := cmd] else old(pending)
    {
      if name == "" { return BadRequest; }
      var body := "{}";
      if payload.Some? { body := payload.value; }
      var cmd := Command(id, device, name, body, "pending", None, now, None, org);
      if !ok || device !in db.devices || HasCommand(db.commands, id) { return Failed; }
      db.commands := db.commands + [cmd];
      pending := pending[device := cmd];
      return Done;
    }

    method HandleResult(id: string, status: string, result: string, org: string, now: int, ok: bool)
      returns (reply: Reply)
      modifies this, db
      ensures var a := Report(id, status, result, org, now, ok);
              db.State() == Acted(old(db.State()), a) &&
              Cache() == DeliveryLaws.CacheAfter(old(db.State()), old(Cache()), a)
      ensures reply == if !ok then Failed
                       else if exists c | c in old(db.commands) :: c.id == id && c.org == org then Done else NotFound
      ensures db.State() == old(db.State()).(commands := db.commands) && |db.commands| == |old(db.commands)|
      ensures forall k | 0 <= k < |db.commands| ::
                db.commands[k] ==
                if ok && old(db.commands)[k].id == id && old(db.commands)[k].org == org
                then old(db.commands)[k].(status := if status == "" then "completed" else status,
                                          result := Some(result), completed := Some(now))
                else old(db.commands)[k]
      ensures pending == if reply.Done? then old(pending) - {id} else old(pending)
    {
      if !ok { return Failed; }
      CommandLaws.ResultPointwise(db.commands, id, status, result, org, now);
      CommandLaws.OwnsExactly(db.commands, id, org);
      var affected := CommandLaws.Owns(db.commands, id, org);
      db.commands := SetResult(db.commands, id, status, result, org, now);
      if !affected { return NotFound; }
      pending := pending - {id};
      return Done;
    }

    /** A new websocket is written, before its ticks, the cached command of its device, or without a device id all of
        them, in some order; sent lists the keys of what is written. */
    method SendPending(device: string) returns (sent: seq<string>)
      ensures multiset(sent) == multiset(set k | k in pending && (device == "" || k == device))
    {
      sent := [];
      ghost var wanted := set k | k in pending && (device == "" || k == device);
      var todo := pending.Keys;
      while todo != {}
        invariant todo <= pending.Keys && multiset(sent) == multiset(wanted - todo)
        decreases todo
      {
        assert (forall k :: k !in todo) ==> todo == {};
        var k :| k in todo;
        OneMore(wanted, todo, k);
        if device == "" || k == device {
          sent := sent + [k];
        }
        todo := todo - {k};
      }
      assert wanted - todo == wanted;
    }

    /** One tick that nothing comes between; sent is what the listener is written. DeliveryLaws.TickIsThreeActions says
        that the three actions of the runs do this. */
    method Tick(device: string, org: string, read: bool, marked: bool) returns (sent: Option<Command>)
      modifies db
      ensures sent == if device != "" && read then Oldest(old(db.commands), device, org) else None
      ensures sent.Some? ==>
                sent.value in old(db.commands) && PendingFor(sent.value, device, org) &&
                forall c | c in old(db.commands) && PendingFor(c, device, org) :: sent.value.created <= c.created
      ensures sent.None? && device != "" && read ==> forall c | c in old(db.commands) :: !PendingFor(c, device, org)
      ensures db.State() == old(db.State()).(commands := db.commands) && |db.commands| == |old(db.commands)|
      ensures forall k | 0 <= k < |db.commands| ::
                db.commands[k] ==
                if sent.Some? && marked && old(db.commands)[k].id == sent.value.id
                then old(db.commands)[k].(status := "delivered") else old(db.commands)[k]
      ensures device != "" && read && marked ==> db.commands == DeliveryLaws.Tick(old(db.commands), device, org)
    {
      DeliveryLaws.OldestIsEarliest(db.commands, device, org);
      if device == "" || !read { return None; }
      sent := Oldest(db.commands, device, org);
      if sent.Some? && marked {
        CommandLaws.MarkPointwise(db.commands, sent.value.id);
        db.commands := Mark(db.commands, sent.value.id);
      }
    }
  }

  class MqttHook {
    const db: Database
    const telemetry: TelemetryModule
    var devices: map<string, Session>

    constructor (telemetry: TelemetryModule)
      ensures this.db == telemetry.db && this.telemetry == telemetry && devices == map[]
    {
      this.db, this.telemetry, devices := telemetry.db, telemetry, map[];
    }

    ghost function Now(): World
      reads this, db
    {
      World(db.State(), devices, map[])
    }

    method OnConnectAuthenticate(client: string, username: string, password: string, ok: bool) returns (accepted: bool)
      modifies this
      ensures devices == SessionsAfter(old(Now()), Connect(client, username, password, ok))
      ensures accepted <==>
              username != "" && ok && username in db.devices && db.devices[username].secret == password
      ensures devices == if accepted then old(devices)[client := Session(username, db.devices[username].org)]
                         else old(devices)
    {
      if username == "" { return false; }
      if !ok || username !in db.devices { return false; }
      var row := db.devices[username];
      if row.secret != password { return false; }
      devices := devices[client := Session(username, row.org)];
      return true;
    }

    method OnDisconnect(client: string)
      modifies this
      ensures devices == SessionsAfter(old(Now()), Disconnect(client)) == old(devices) - {client}
    {
      if client in devices {
        devices := devices - {client};
      }
    }

    /** A write is allowed exactly on the topic that parses to the session's device, if its id holds no '/'. */
    method OnACLCheck(client: string, topic: string, write: bool) returns (allowed: bool)
      ensures allowed <==>
              !write || (client in devices && topic == "deviceos/" + devices[client].device + "/telemetry")
      ensures write && client in devices && Free(devices[client].device, '/') ==>
                (allowed <==> ParseTelemetryTopic(topic) == Some(devices[client].device))
    {
      if !write { return true; }
      if client !in devices { return false; }
      var info := devices[client];
      AclAgreesWithParser(info.device);
      return topic == "deviceos/" + info.device + "/telemetry";
    }

    method OnPublished(client: string, topic: string, payload: Option<string>, now: int, ok: bool, touched: bool,
                       broken: set<Conn>)
      requires telemetry.db == db
      modifies db
      ensures db.State() == TablesAfter(0, old(Now()), Publish(client, topic, payload, now, ok, touched))
      ensures if client in devices && topic == TelemetryTopic(devices[client].device) &&
                 Free(devices[client].device, '/') && payload.Some? && ok && devices[client].device in old(db.devices)
              then
                var s := devices[client];
                db.State() == old(db.State()).(
                  telemetry := old(db.telemetry) +
                    [Telemetry(old(db.nextRow), s.device, s.org, now, payload.value, "{}")],
                  nextRow := old(db.nextRow) + 1,
                  devices := if touched
                             then old(db.devices)[s.device := old(db.devices)[s.device].(
                                    status := "online", lastSeen := Some(now))]
                             else old(db.devices))
              else db.State() == old(db.State())
    {
      if client in devices { TopicParts(devices[client].device); }
      if ParseTelemetryTopic(topic).Some? { ParsedTopicRebuilds(topic); }
      var device := ParseTelemetryTopic(topic);
      if device.None? || client !in devices { return; }
      var info := devices[client];
      if info.device != device.value { return; }
      if payload.None? { return; }
      var _, _, _ := telemetry.Store(device.value, now, payload, None, info.org, ok, touched, broken);
    }
  }
}
