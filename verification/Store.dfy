/** The shared tables and the statements that the device, telemetry, fleet, command and MQTT modules run on
    them. Foreign keys are enforced and every statement is atomic; ok says whether the engine lets it through. */
module Store {
  import opened Text

  datatype Device = Device(
    name: string, kind: string, secret: string, metadata: string, tags: string, group: string, org: string,
    status: string, lastSeen: Option<int>, created: int, updated: int)

  datatype Telemetry = Telemetry(id: int, device: string, org: string, ts: int, metrics: string, metadata: string)

  datatype Command = Command(
    id: string, device: string, name: string, payload: string, status: string, result: Option<string>,
    created: int, completed: Option<int>, org: string)

  /** Tables keep their rows in row order; nextRow is the telemetry AUTOINCREMENT counter. */
  datatype Tables = Tables(
    devices: map<string, Device>, telemetry: seq<Telemetry>, nextRow: int, commands: seq<Command>)

  /** A registration or update request; None is an absent JSON field. */
  datatype DeviceRequest = DeviceRequest(
    name: string, kind: string, metadata: Option<string>, tags: Option<string>, group: string)

  function OrElse(value: Option<string>, default: string): string {
    if value.None? then default else value.value
  }

  // ---------- Rows

  function KeepTelemetry(rows: seq<Telemetry>, keep: Telemetry -> bool): seq<Telemetry> {
    if rows == [] then []
    else (if keep(rows[0]) then [rows[0]] else []) + KeepTelemetry(rows[1..], keep)
  }

  function NotOf(device: string): Telemetry -> bool {
    (r: Telemetry) => r.device != device
  }

  function Since(cutoff: int): Telemetry -> bool {
    (r: Telemetry) => r.ts >= cutoff
  }

  function WithoutDevice(rows: seq<Command>, device: string): seq<Command> {
    if rows == [] then []
    else (if rows[0].device == device then [] else [rows[0]]) + WithoutDevice(rows[1..], device)
  }

  predicate HasCommand(rows: seq<Command>, id: string) {
    exists i | 0 <= i < |rows| :: rows[i].id == id
  }

  // ---------- devices

  /** INSERT INTO devices: refused when the id is taken. */
  function CreateDevice(t: Tables, id: string, secret: string, req: DeviceRequest, org: string, now: int,
                        ok: bool): Tables {
    if !ok || id in t.devices then t
    else
      t.(devices := t.devices[id := Device(req.name, req.kind, secret, OrElse(req.metadata, "{}"),
                                           OrElse(req.tags, "[]"), req.group, org, "offline", None, now, now)])
  }

  function UpdateDevice(t: Tables, id: string, req: DeviceRequest, now: int, ok: bool): Tables {
    if !ok || id !in t.devices then t
    else
      t.(devices := t.devices[id := t.devices[id].(
        name := req.name, kind := req.kind, metadata := OrElse(req.metadata, "{}"), tags := OrElse(req.tags, "[]"),
        group := req.group, updated := now)])
  }

  /** DELETE FROM devices, with both ON DELETE CASCADE clauses. */
  function DeleteDevice(t: Tables, id: string, ok: bool): Tables {
    if !ok || id !in t.devices then t
    else
      t.(devices := t.devices - {id},
         telemetry := KeepTelemetry(t.telemetry, NotOf(id)),
         commands := WithoutDevice(t.commands, id))
  }

  // ---------- fleet

  predicate OwnsDevice(t: Tables, id: string, org: string) {
    id in t.devices && t.devices[id].org == org
  }

  function AddTags(t: Tables, id: string, org: string, tags: string, ok: bool): Tables {
    if !ok || !OwnsDevice(t, id, org) then t else t.(devices := t.devices[id := t.devices[id].(tags := tags)])
  }

  function SetGroup(t: Tables, id: string, org: string, group: string, ok: bool): Tables {
    if !ok || !OwnsDevice(t, id, org) then t else t.(devices := t.devices[id := t.devices[id].(group := group)])
  }

  datatype Health = Health(total: nat, online: nat, offline: nat)

  function InOrg(t: Tables, org: string): set<string> {
    set d | d in t.devices && t.devices[d].org == org
  }

  function WithStatus(t: Tables, org: string, status: string): set<string> {
    set d | d in t.devices && t.devices[d].org == org && t.devices[d].status == status
  }

  function FleetHealth(t: Tables, org: string): Health {
    Health(|InOrg(t, org)|, |WithStatus(t, org, "online")|, |WithStatus(t, org, "offline")|)
  }

  // ---------- telemetry

  /** Store and storeTelemetry: the insert, then the status update whose error is ignored. */
  function StoreTelemetry(t: Tables, device: string, ts: int, metrics: Option<string>, metadata: Option<string>,
                          org: string, ok: bool, touched: bool): Tables {
    if metrics.None? || !ok || device !in t.devices then t
    else
      var row := Telemetry(t.nextRow, device, org, ts, metrics.value, OrElse(metadata, "{}"));
      var inserted := t.(telemetry := t.telemetry + [row], nextRow := t.nextRow + 1);
      if !touched then inserted
      else inserted.(devices := t.devices[device := t.devices[device].(status := "online", lastSeen := Some(ts))])
  }

  function Prune(t: Tables, cutoff: int, ok: bool): Tables {
    if !ok then t else t.(telemetry := KeepTelemetry(t.telemetry, Since(cutoff)))
  }

  /** The WHERE clause of both telemetry queries: the organisation counts only when there is one. */
  function Wanted(device: string, org: string): Telemetry -> bool {
    (r: Telemetry) => r.device == device && (org == "" || r.org == org)
  }

  function InsertNewest(x: Telemetry, s: seq<Telemetry>): seq<Telemetry> {
    if s == [] || x.ts >= s[0].ts then [x] + s else [s[0]] + InsertNewest(x, s[1..])
  }

  /** ORDER BY timestamp DESC, in row order among equal timestamps. */
  function NewestFirst(rows: seq<Telemetry>): seq<Telemetry> {
    if rows == [] then [] else InsertNewest(rows[0], NewestFirst(rows[1..]))
  }

  /** LIMIT; a negative limit is none. */
  function Limit(rows: seq<Telemetry>, limit: int): seq<Telemetry> {
    if limit < 0 || limit >= |rows| then rows else rows[..limit]
  }

  function QueryTelemetry(t: Tables, device: string, org: string, limit: int): seq<Telemetry> {
    Limit(NewestFirst(KeepTelemetry(t.telemetry, Wanted(device, org))), limit)
  }

  // ---------- commands

  function SendCommand(t: Tables, id: string, device: string, name: string, payload: Option<string>, org: string,
                       now: int, ok: bool): Tables {
    if name == "" || !ok || device !in t.devices || HasCommand(t.commands, id) then t
    else
      var c := Command(id, device, name, OrElse(payload, "{}"), "pending", None, now, None, org);
      t.(commands := t.commands + [c])
  }

  /** UPDATE commands SET status=?, result=?, completed_at=?; a result without a status reports 'completed'. */
  function SetResult(rows: seq<Command>, id: string, status: string, result: string, org: string,
                     now: int): seq<Command> {
    if rows == [] then []
    else
      var c := rows[0];
      [if c.id == id && c.org == org
       then c.(status := if status == "" then "completed" else status, result := Some(result), completed := Some(now))
       else c] + SetResult(rows[1..], id, status, result, org, now)
  }

  function ReportResult(t: Tables, id: string, status: string, result: string, org: string, now: int,
                        ok: bool): Tables {
    if !ok then t else t.(commands := SetResult(t.commands, id, status, result, org, now))
  }

  /** UPDATE commands SET status='delivered' WHERE id=?, whatever the status was. */
  function Mark(rows: seq<Command>, id: string): seq<Command> {
    if rows == [] then []
    else [if rows[0].id == id then rows[0].(status := "delivered") else rows[0]] + Mark(rows[1..], id)
  }

  function MarkDelivered(t: Tables, id: string, ok: bool): Tables {
    if !ok then t else t.(commands := Mark(t.commands, id))
  }

  predicate PendingFor(c: Command, device: string, org: string) {
    c.device == device && c.status == "pending" && c.org == org
  }

  /** ORDER BY created_at ASC LIMIT 1 over the pending commands; the earlier row wins a tie. */
  function Oldest(rows: seq<Command>, device: string, org: string): (c: Option<Command>)
    ensures c.Some? ==> c.value in rows && PendingFor(c.value, device, org)
  {
    if rows == [] then None
    else
      var rest := Oldest(rows[..|rows| - 1], device, org);
      var c := rows[|rows| - 1];
      if PendingFor(c, device, org) && (rest.None? || c.created < rest.value.created) then Some(c) else rest
  }
}
