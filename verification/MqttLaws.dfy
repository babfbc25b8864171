/** MQTT session safety over every run of all the writers (modules/mqtt/module.go:147-234). */
module MqttLaws {
  import opened Text
  import opened Store
  import opened Topics
  import opened StoreRuns

  datatype Login = Login(username: string, password: string)

  /** The client's latest successful authentication, if it has not disconnected since. */
  function AuthOf(ttl: int, run: seq<Action>, client: string): Option<Login> {
    if run == [] then None
    else
      var front, a := run[..|run| - 1], run[|run| - 1];
      var devices := After(ttl, front).t.devices;
      if a.Disconnect? && a.client == client then None
      else if a.Connect? && a.client == client && a.username != "" && a.ok &&
              a.username in devices && devices[a.username].secret == a.password
      then Some(Login(a.username, a.password))
      else AuthOf(ttl, front, client)
  }

  /** The session is the one that this login opened, and while its device exists the login's password is the
      device's key and the session's organisation is the device's. */
  ghost predicate SessionTells(w: World, created: set<string>, client: string, login: Option<Login>)
    requires client in w.sessions
  {
    var s := w.sessions[client];
    login.Some? && login.value.username == s.device && s.device in created &&
    (s.device in w.t.devices ==>
       w.t.devices[s.device].secret == login.value.password && w.t.devices[s.device].org == s.org)
  }

  ghost predicate Trusted(ttl: int, run: seq<Action>) {
    var w := After(ttl, run);
    w.t.devices.Keys <= Created(run) &&
    forall c {:trigger AuthOf(ttl, run, c)} ::
      (c in w.sessions <==> AuthOf(ttl, run, c).Some?) &&
      (c in w.sessions ==> SessionTells(w, Created(run), c, AuthOf(ttl, run, c)))
  }

  /** No writer changes a device's key or organisation; only createDevice adds a device. */
  lemma KeysAndOrgsStay(ttl: int, w: World, a: Action)
    ensures var u := TablesAfter(ttl, w, a);
            forall d | d in u.devices ::
              if d in w.t.devices
              then u.devices[d].secret == w.t.devices[d].secret && u.devices[d].org == w.t.devices[d].org
              else a.Create? && a.id == d
  {
  }

  lemma SessionStep(ttl: int, w: World, a: Action, created: set<string>, client: string, login: Option<Login>)
    requires client in w.sessions && SessionTells(w, created, client, login)
    requires a.Create? ==> a.id !in created
    requires client in SessionsAfter(w, a) && SessionsAfter(w, a)[client] == w.sessions[client]
    ensures SessionTells(Step(ttl, w, a), created + (if a.Create? then {a.id} else {}), client, login)
  {
    KeysAndOrgsStay(ttl, w, a);
  }

  lemma ConnectStep(ttl: int, w: World, a: Action, created: set<string>)
    requires a.Connect? && a.username != "" && a.ok && w.t.devices.Keys <= created
    requires a.username in w.t.devices && w.t.devices[a.username].secret == a.password
    ensures SessionTells(Step(ttl, w, a), created, a.client, Some(Login(a.username, a.password)))
  {
  }

  lemma OneClient(ttl: int, run: seq<Action>, c: string)
    requires run != [] && Trusted(ttl, run[..|run| - 1])
    requires run[|run| - 1].Create? ==> run[|run| - 1].id !in Created(run[..|run| - 1])
    ensures var u := After(ttl, run);
            (c in u.sessions <==> AuthOf(ttl, run, c).Some?) &&
            (c in u.sessions ==> SessionTells(u, Created(run), c, AuthOf(ttl, run, c)))
  {
    var front, a := run[..|run| - 1], run[|run| - 1];
    var w := After(ttl, front);
    var login := AuthOf(ttl, front, c);
    if a.Connect? && a.client == c && a.username != "" && a.ok && a.username in w.t.devices &&
       w.t.devices[a.username].secret == a.password
    {
      ConnectStep(ttl, w, a, Created(front));
    } else if a.Disconnect? && a.client == c {
    } else if c in w.sessions {
      SessionStep(ttl, w, a, Created(front), c, login);
    }
  }

  lemma TrustedStep(ttl: int, run: seq<Action>)
    requires run != [] && Trusted(ttl, run[..|run| - 1])
    requires run[|run| - 1].Create? ==> run[|run| - 1].id !in Created(run[..|run| - 1])
    ensures Trusted(ttl, run)
  {
    var front, a := run[..|run| - 1], run[|run| - 1];
    var w, u := After(ttl, front), After(ttl, run);
    KeysAndOrgsStay(ttl, w, a);
    forall c {:trigger AuthOf(ttl, run, c)}
      ensures (c in u.sessions <==> AuthOf(ttl, run, c).Some?) &&
              (c in u.sessions ==> SessionTells(u, Created(run), c, AuthOf(ttl, run, c)))
    {
      OneClient(ttl, run, c);
    }
  }

  lemma {:induction false} StaysTrusted(ttl: int, run: seq<Action>)
    requires FreshIds(run)
    ensures Trusted(ttl, run)
  {
    if run != [] {
      var n := |run| - 1;
      var front, a := run[..n], run[n];
      FreshPrefix(run, n);
      StaysTrusted(ttl, front);
      assert FreshAt(run, n);
      TrustedStep(ttl, run);
    }
  }

  /** What a publication by client must satisfy for a row to be stored. */
  ghost predicate Entitled(ttl: int, run: seq<Action>, a: Action, d: string)
    requires a.Publish?
  {
    var devices, login := After(ttl, run).t.devices, AuthOf(ttl, run, a.client);
    login.Some? && login.value.username == d && d in devices && devices[d].secret == login.value.password &&
    a.topic == TelemetryTopic(d) && Free(d, '/') && a.payload.Some? && a.ok
  }

  /** Session safety, and its converse. A publication stores a row exactly when the client's latest successful
      authentication, with no disconnect since, presented the stored key of an existing device whose own topic
      it is; the row is then that device's and carries that device's organisation, and nothing else changes but, if
      the update goes through, the device's status and last sight. */
  lemma PublishStoresExactly(ttl: int, run: seq<Action>, a: Action)
    requires FreshIds(run) && a.Publish?
    ensures var w, u := After(ttl, run), Step(ttl, After(ttl, run), a);
            if exists d :: Entitled(ttl, run, a, d)
            then exists d :: Entitled(ttl, run, a, d) &&
                   u.t == w.t.(
                     telemetry := w.t.telemetry +
                       [Telemetry(w.t.nextRow, d, w.t.devices[d].org, a.now, a.payload.value, "{}")],
                     nextRow := w.t.nextRow + 1,
                     devices := if a.touched
                                then w.t.devices[d := w.t.devices[d].(status := "online", lastSeen := Some(a.now))]
                                else w.t.devices)
            else u.t == w.t
  {
    StaysTrusted(ttl, run);
    var w := After(ttl, run);
    var login := AuthOf(ttl, run, a.client);
    if d :| Entitled(ttl, run, a, d) {
      TopicParts(d);
      assert ParseTelemetryTopic(a.topic) == Some(d);
    } else if a.client in w.sessions && ParseTelemetryTopic(a.topic) == Some(w.sessions[a.client].device) {
      var d := w.sessions[a.client].device;
      ParsedTopicRebuilds(a.topic);
      assert !Entitled(ttl, run, a, d);
    }
  }

  // ---------- Taking over a client id

  /** A device connects, connects again under the same client id, and then the end of its first connection is
      reported. */
  const TAKEOVER := [Create("d", "k", DeviceRequest("", "", None, None, ""), "o", 0, true),
                     Connect("c", "d", "k", true), Connect("c", "d", "k", true), Disconnect("c")]

  const READING := Publish("c", TelemetryTopic("d"), Some("{}"), 1, true, true)

  lemma Registered(ttl: int)
    ensures var w := After(ttl, TAKEOVER[..1]);
            w.t.telemetry == [] && w.sessions == map[] &&
            "d" in w.t.devices && w.t.devices["d"].secret == "k" && w.t.devices["d"].org == "o"
  {
    assert TAKEOVER[..0] == [];
    OneStep(ttl, TAKEOVER, 0);
  }

  lemma TakenOver(ttl: int)
    ensures var w := After(ttl, TAKEOVER[..3]);
            w.t.telemetry == [] && "d" in w.t.devices && w.sessions == map["c" := Session("d", "o")]
  {
    Registered(ttl);
    OneStep(ttl, TAKEOVER, 1);
    OneStep(ttl, TAKEOVER, 2);
  }

  lemma TakeoverIsFresh()
    ensures FreshIds(TAKEOVER)
  {
    forall i {:trigger FreshAt(TAKEOVER, i)} | 0 <= i < |TAKEOVER| ensures FreshAt(TAKEOVER, i) {
      if i == 0 { assert TAKEOVER[..0] == []; }
    }
  }

  lemma OwnTopicStored(ttl: int, w: World, a: Action, d: string)
    requires a.Publish? && a.topic == TelemetryTopic(d) && Free(d, '/') && a.payload.Some? && a.ok
    requires a.client in w.sessions && w.sessions[a.client].device == d && d in w.t.devices
    ensures |Step(ttl, w, a).t.telemetry| == |w.t.telemetry| + 1
  {
    TopicParts(d);
  }

  lemma ReadingStored(ttl: int, w: World)
    requires w.t.telemetry == [] && "d" in w.t.devices && w.sessions == map["c" := Session("d", "o")]
    ensures |Step(ttl, w, READING).t.telemetry| == 1
  {
    OwnTopicStored(ttl, w, READING, "d");
  }

  lemma TakeoverEnds(ttl: int)
    ensures var w := After(ttl, TAKEOVER); w.t.telemetry == [] && w.sessions == map[]
  {
    TakenOver(ttl);
    OneStep(ttl, TAKEOVER, 3);
    assert TAKEOVER[..4] == TAKEOVER;
  }

  /** The second connection's readings are stored until the end of the first is reported: OnDisconnect removes the
      session by client id, so from then on they are dropped although that connection is open. */
  lemma TakeoverLosesSession(ttl: int)
    ensures FreshIds(TAKEOVER)
    ensures |After(ttl, TAKEOVER[..3] + [READING]).t.telemetry| == 1
    ensures After(ttl, TAKEOVER + [READING]).t.telemetry == []
  {
    TakeoverIsFresh();
    TakenOver(ttl);
    ReadingStored(ttl, After(ttl, TAKEOVER[..3]));
    TakeoverEnds(ttl);
    AfterNext(ttl, TAKEOVER[..3], READING);
    AfterNext(ttl, TAKEOVER, READING);
  }
}
