/** All writers taken together: the actions of the device, telemetry, fleet, command and MQTT modules, in
    any interleaving, on one set of tables. */
module StoreRuns {
  import opened Text
  import opened Store
  import opened Topics

  /** A connected MQTT client, as the devices map of the auth hook remembers it. */
  datatype Session = Session(device: string, org: string)

  /** A command websocket; its ticker has read this command and not yet marked it. */
  datatype Listener = Listener(device: string, org: string, reading: Option<string>, written: bool)

  datatype World = World(t: Tables, sessions: map<string, Session>, listeners: map<int, Listener>)

  datatype Action =
    | Create(id: string, secret: string, req: DeviceRequest, org: string, now: int, ok: bool)
    | Update(id: string, req: DeviceRequest, now: int, ok: bool)
    | Delete(id: string, ok: bool)
    | Tag(id: string, org: string, tags: string, ok: bool)
    | Group(id: string, org: string, group: string, ok: bool)
    | Ingest(device: string, ts: int, metrics: Option<string>, metadata: Option<string>, org: string, ok: bool,
        touched: bool)
    | PruneAt(now: int, ok: bool)
    | Connect(client: string, username: string, password: string, ok: bool)
    | Disconnect(client: string)
    | Publish(client: string, topic: string, payload: Option<string>, now: int, ok: bool, touched: bool)
    | Send(cmd: string, device: string, name: string, body: Option<string>, org: string, now: int, ok: bool)
    | Report(cmd: string, status: string, result: string, org: string, now: int, ok: bool)
    | Listen(l: int, device: string, org: string)
    | Read(l: int, ok: bool)
    | Write(l: int)
    | MarkRead(l: int, ok: bool)
    | Hangup(l: int)

  /** OnPublished: what reaches Store is JSON under a topic that names the session's device. */
  function AfterPublish(w: World, a: Action): Tables
    requires a.Publish?
  {
    if a.client !in w.sessions || ParseTelemetryTopic(a.topic) != Some(w.sessions[a.client].device) || a.payload.None?
    then w.t
    else
      var s := w.sessions[a.client];
      StoreTelemetry(w.t, s.device, a.now, a.payload, None, s.org, a.ok, a.touched)
  }

  function TablesAfter(ttl: int, w: World, a: Action): Tables {
    var t := w.t;
    match a
    case Create(id, secret, req, org, now, ok) => CreateDevice(t, id, secret, req, org, now, ok)
    case Update(id, req, now, ok) => UpdateDevice(t, id, req, now, ok)
    case Delete(id, ok) => DeleteDevice(t, id, ok)
    case Tag(id, org, tags, ok) => AddTags(t, id, org, tags, ok)
    case Group(id, org, group, ok) => SetGroup(t, id, org, group, ok)
    case Ingest(device, ts, metrics, metadata, org, ok, touched) =>
      if device == "" then t else StoreTelemetry(t, device, ts, metrics, metadata, org, ok, touched)
    case PruneAt(now, ok) => Prune(t, now - ttl, ok)
    case Publish(_, _, _, _, _, _) => AfterPublish(w, a)
    case Send(cmd, device, name, body, org, now, ok) => SendCommand(t, cmd, device, name, body, org, now, ok)
    case Report(cmd, status, result, org, now, ok) => ReportResult(t, cmd, status, result, org, now, ok)
    case MarkRead(l, ok) =>
      if l in w.listeners && w.listeners[l].reading.Some? && w.listeners[l].written
      then MarkDelivered(t, w.listeners[l].reading.value, ok) else t
    case _ => t
  }

  function SessionsAfter(w: World, a: Action): map<string, Session> {
    match a
    case Connect(client, username, password, ok) =>
      if username != "" && ok && username in w.t.devices && w.t.devices[username].secret == password
      then w.sessions[client := Session(username, w.t.devices[username].org)] else w.sessions
    case Disconnect(client) => w.sessions - {client}
    case _ => w.sessions
  }

  /** The ticker's read, write and update are separate steps of the listener. */
  function ListenersAfter(w: World, a: Action): map<int, Listener> {
    var ls := w.listeners;
    match a
    case Listen(l, device, org) => ls[l := Listener(device, org, None, false)]
    case Read(l, ok) =>
      if l in ls && ls[l].reading.None? && ls[l].device != "" && ok
      then
        var c := Oldest(w.t.commands, ls[l].device, ls[l].org);
        if c.Some? then ls[l := ls[l].(reading := Some(c.value.id), written := false)] else ls
      else ls
    case Write(l) => if l in ls && ls[l].reading.Some? then ls[l := ls[l].(written := true)] else ls
    case MarkRead(l, _) =>
      if l in ls && ls[l].reading.Some? && ls[l].written then ls[l := ls[l].(reading := None, written := false)] else ls
    case Hangup(l) => ls - {l}
    case _ => ls
  }

  function Step(ttl: int, w: World, a: Action): World {
    World(TablesAfter(ttl, w, a), SessionsAfter(w, a), ListenersAfter(w, a))
  }

  const EMPTY := World(Tables(map[], [], 1, []), map[], map[])

  function After(ttl: int, run: seq<Action>): World {
    if run == [] then EMPTY else Step(ttl, After(ttl, run[..|run| - 1]), run[|run| - 1])
  }

  lemma OneStep(ttl: int, run: seq<Action>, n: nat)
    requires n < |run|
    ensures After(ttl, run[..n + 1]) == Step(ttl, After(ttl, run[..n]), run[n])
  {
    assert run[..n + 1][..n] == run[..n];
  }

  lemma AfterNext(ttl: int, front: seq<Action>, a: Action)
    ensures After(ttl, front + [a]) == Step(ttl, After(ttl, front), a)
  {
    assert (front + [a])[..|front|] == front;
  }

  // ---------- Identifiers are fresh

  /** The device ids a run has created. */
  function Created(run: seq<Action>): set<string> {
    if run == [] then {}
    else
      var a := run[|run| - 1];
      Created(run[..|run| - 1]) + if a.Create? then {a.id} else {}
  }

  /** The command ids a run has handed out. */
  function Sent(run: seq<Action>): set<string> {
    if run == [] then {}
    else
      var a := run[|run| - 1];
      Sent(run[..|run| - 1]) + if a.Send? then {a.cmd} else {}
  }

  ghost predicate FreshAt(run: seq<Action>, i: nat)
    requires i < |run|
  {
    (run[i].Create? ==> run[i].id !in Created(run[..i])) && (run[i].Send? ==> run[i].cmd !in Sent(run[..i]))
  }

  /** generateID and generateCmdID never repeat themselves. */
  ghost predicate FreshIds(run: seq<Action>) {
    forall i {:trigger FreshAt(run, i)} | 0 <= i < |run| :: FreshAt(run, i)
  }

  lemma FreshPrefix(run: seq<Action>, n: nat)
    requires FreshIds(run) && n <= |run|
    ensures FreshIds(run[..n])
  {
    forall i {:trigger FreshAt(run[..n], i)} | 0 <= i < n ensures FreshAt(run[..n], i) {
      assert FreshAt(run, i) && run[..n][..i] == run[..i];
    }
  }
}
