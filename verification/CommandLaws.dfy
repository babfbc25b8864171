/** The life of a command: when it is pending, and whether what was reported about it lasts
    (modules/commands/module.go:77-207, 249-268). */
module CommandLaws {
  import opened Text
  import opened Store
  import opened StoreRuns
  import StoreLaws

  // ---------- Whether a command is pending

  predicate IsPending(rows: seq<Command>, id: string) {
    rows != [] && ((rows[0].id == id && rows[0].status == "pending") || IsPending(rows[1..], id))
  }

  predicate Owns(rows: seq<Command>, id: string, org: string) {
    rows != [] && ((rows[0].id == id && rows[0].org == org) || Owns(rows[1..], id, org))
  }

  lemma {:induction false} PendingExactly(rows: seq<Command>, id: string)
    ensures IsPending(rows, id) <==> exists c | c in rows :: c.id == id && c.status == "pending"
  {
    if rows != [] {
      PendingExactly(rows[1..], id);
      assert rows == [rows[0]] + rows[1..] && rows[0] in rows;
    }
  }

  lemma {:induction false} OwnsExactly(rows: seq<Command>, id: string, org: string)
    ensures Owns(rows, id, org) <==> exists c | c in rows :: c.id == id && c.org == org
  {
    if rows != [] {
      OwnsExactly(rows[1..], id, org);
      assert rows == [rows[0]] + rows[1..] && rows[0] in rows;
    }
  }

  lemma {:induction false} PendingAppend(rows: seq<Command>, c: Command, id: string)
    ensures IsPending(rows + [c], id) <==> IsPending(rows, id) || (c.id == id && c.status == "pending")
  {
    if rows == [] {
      assert [] + [c] == [c];
      assert IsPending([c], id) <==> (c.id == id && c.status == "pending") || IsPending([c][1..], id);
    } else {
      PendingAppend(rows[1..], c, id);
      assert (rows + [c])[1..] == rows[1..] + [c];
    }
  }

  lemma {:induction false} PendingMark(rows: seq<Command>, upd: string, id: string)
    ensures IsPending(Mark(rows, upd), id) <==> IsPending(rows, id) && upd != id
  {
    if rows != [] { PendingMark(rows[1..], upd, id); }
  }

  lemma {:induction false} PendingResult(rows: seq<Command>, upd: string, status: string, result: string,
                                         org: string, now: int, id: string)
    ensures var after := IsPending(SetResult(rows, upd, status, result, org, now), id);
            if upd == id && status == "pending"
            then after <==> IsPending(rows, id) || Owns(rows, id, org)
            else after ==> IsPending(rows, id)
  {
    if rows != [] { PendingResult(rows[1..], upd, status, result, org, now, id); }
  }

  lemma {:induction false} PendingWithout(rows: seq<Command>, device: string, id: string)
    ensures IsPending(WithoutDevice(rows, device), id) ==> IsPending(rows, id)
  {
    if rows != [] {
      PendingWithout(rows[1..], device, id);
      var rest := WithoutDevice(rows[1..], device);
      if rows[0].device == device {
        assert [] + rest == rest;
      } else {
        assert ([rows[0]] + rest)[1..] == rest;
      }
    }
  }

  // ---------- Every run

  /** The one way back into 'pending' that a handler offers: a result whose reported status is 'pending'. */
  ghost predicate Reenters(w: World, a: Action, id: string) {
    a.Report? && a.cmd == id && a.status == "pending" && a.ok && Owns(w.t.commands, id, a.org)
  }

  ghost predicate Inserts(w: World, a: Action, id: string) {
    a.Send? && a.cmd == id && a.name != "" && a.ok && a.device in w.t.devices && !HasCommand(w.t.commands, id)
  }

  /** A command that is not pending becomes pending exactly by being sent or by a reported 'pending'. */
  lemma BecomesPendingExactly(ttl: int, w: World, a: Action, id: string)
    requires !IsPending(w.t.commands, id)
    ensures IsPending(TablesAfter(ttl, w, a).commands, id) <==> Inserts(w, a, id) || Reenters(w, a, id)
  {
    var rows := w.t.commands;
    match a
    case Delete(device, _) => PendingWithout(rows, device, id);
    case Send(cmd, device, name, body, org, now, _) =>
      PendingAppend(rows, Command(cmd, device, name, OrElse(body, "{}"), "pending", None, now, None, org), id);
    case Report(cmd, status, result, org, now, _) => PendingResult(rows, cmd, status, result, org, now, id);
    case MarkRead(l, _) =>
      if l in w.listeners && w.listeners[l].reading.Some? { PendingMark(rows, w.listeners[l].reading.value, id); }
    case _ =>
  }

  ghost predicate NoPendingReports(run: seq<Action>) {
    forall i | 0 <= i < |run| && run[i].Report? :: run[i].status != "pending"
  }

  predicate PendingAfter(ttl: int, run: seq<Action>, id: string) {
    IsPending(After(ttl, run).t.commands, id)
  }

  lemma {:induction false} PendingWasSent(ttl: int, run: seq<Action>, id: string)
    requires NoPendingReports(run) && PendingAfter(ttl, run, id)
    ensures id in Sent(run)
  {
    if run != [] {
      var front, a := run[..|run| - 1], run[|run| - 1];
      if PendingAfter(ttl, front, id) {
        PendingWasSent(ttl, front, id);
      } else {
        BecomesPendingExactly(ttl, After(ttl, front), a, id);
      }
    }
  }

  /** Once a command that was sent is not pending, it never is again. */
  lemma {:induction false} NeverReenters(ttl: int, run: seq<Action>, id: string, i: nat, j: nat)
    requires FreshIds(run) && NoPendingReports(run) && i <= j <= |run|
    requires id in Sent(run[..i]) && !PendingAfter(ttl, run[..i], id)
    ensures id in Sent(run[..j]) && !PendingAfter(ttl, run[..j], id)
  {
    if i < j {
      NeverReenters(ttl, run, id, i, j - 1);
      assert run[..j][..j - 1] == run[..j - 1] && run[..j][j - 1] == run[j - 1];
      assert FreshAt(run, j - 1);
      BecomesPendingExactly(ttl, After(ttl, run[..j - 1]), run[j - 1], id);
    }
  }

  /** The k-th action takes the command out of 'pending'. */
  ghost predicate LeavesAt(ttl: int, run: seq<Action>, id: string, k: nat)
    requires k < |run|
  {
    PendingAfter(ttl, run[..k], id) && !PendingAfter(ttl, run[..k + 1], id)
  }

  /** In every interleaving of sends, results, deletions and ticks by any number of listeners, a command
      leaves 'pending' at most once, if no reported status is 'pending'. */
  lemma LeavesPendingOnce(ttl: int, run: seq<Action>, id: string, i: nat, j: nat)
    requires FreshIds(run) && NoPendingReports(run)
    requires i < |run| && j < |run| && LeavesAt(ttl, run, id, i) && LeavesAt(ttl, run, id, j)
    ensures i == j
  {
    var first, second := if i < j then i else j, if i < j then j else i;
    if first < second {
      PendingWasSent(ttl, run[..first], id);
      assert run[..first + 1][..first] == run[..first];
      NeverReenters(ttl, run, id, first + 1, second);
    }
  }

  // ---------- Rows and their ids

  function Ids(rows: seq<Command>): set<string> {
    if rows == [] then {} else {rows[0].id} + Ids(rows[1..])
  }

  /** The primary key of the commands table. */
  ghost predicate Distinct(rows: seq<Command>) {
    rows != [] ==> rows[0].id !in Ids(rows[1..]) && Distinct(rows[1..])
  }

  lemma {:induction false} IdListed(rows: seq<Command>, c: Command)
    requires c in rows
    ensures c.id in Ids(rows)
  {
    if c != rows[0] { IdListed(rows[1..], c); }
  }

  lemma {:induction false} ListedHas(rows: seq<Command>, id: string)
    requires id in Ids(rows)
    ensures HasCommand(rows, id)
  {
    if rows[0].id != id {
      ListedHas(rows[1..], id);
      var i :| 0 <= i < |rows[1..]| && rows[1..][i].id == id;
      assert rows[i + 1].id == id;
    }
  }

  lemma {:induction false} AppendIds(rows: seq<Command>, c: Command)
    ensures Ids(rows + [c]) == Ids(rows) + {c.id}
    ensures Distinct(rows) && c.id !in Ids(rows) ==> Distinct(rows + [c])
  {
    if rows == [] {
      assert [] + [c] == [c] && [c][1..] == [];
    } else {
      AppendIds(rows[1..], c);
      assert (rows + [c])[1..] == rows[1..] + [c];
    }
  }

  lemma {:induction false} UpdateIds(rows: seq<Command>, id: string, status: string, result: string, org: string,
                                     now: int)
    ensures Ids(Mark(rows, id)) == Ids(SetResult(rows, id, status, result, org, now)) == Ids(rows)
    ensures Distinct(rows) ==> Distinct(Mark(rows, id)) && Distinct(SetResult(rows, id, status, result, org, now))
  {
    if rows != [] { UpdateIds(rows[1..], id, status, result, org, now); }
  }

  lemma {:induction false} WithoutIds(rows: seq<Command>, device: string)
    ensures Ids(WithoutDevice(rows, device)) <= Ids(rows)
    ensures Distinct(rows) ==> Distinct(WithoutDevice(rows, device))
  {
    if rows != [] {
      WithoutIds(rows[1..], device);
      var rest := WithoutDevice(rows[1..], device);
      if rows[0].device == device {
        assert [] + rest == rest;
      } else {
        assert ([rows[0]] + rest)[1..] == rest;
      }
    }
  }

  lemma SendIds(t: Tables, a: Action)
    requires a.Send? && Distinct(t.commands)
    ensures var u := SendCommand(t, a.cmd, a.device, a.name, a.body, a.org, a.now, a.ok).commands;
            Distinct(u) && Ids(u) <= Ids(t.commands) + {a.cmd}
  {
    if a.cmd in Ids(t.commands) { ListedHas(t.commands, a.cmd); }
    AppendIds(t.commands, Command(a.cmd, a.device, a.name, OrElse(a.body, "{}"), "pending", None, a.now, None, a.org));
  }

  lemma IdsStep(ttl: int, w: World, a: Action)
    requires Distinct(w.t.commands)
    ensures var u := TablesAfter(ttl, w, a).commands;
            Distinct(u) && Ids(u) <= Ids(w.t.commands) + if a.Send? then {a.cmd} else {}
  {
    var rows := w.t.commands;
    match a
    case Delete(device, _) => WithoutIds(rows, device);
    case Send(_, _, _, _, _, _, _) => SendIds(w.t, a);
    case Report(cmd, status, result, org, now, _) => UpdateIds(rows, cmd, status, result, org, now);
    case MarkRead(l, _) =>
      if l in w.listeners && w.listeners[l].reading.Some? {
        UpdateIds(rows, w.listeners[l].reading.value, "", "", "", 0);
      }
    case _ =>
  }

  /** In every reachable state no two command rows share an id, and every row's id was handed out by a send. */
  lemma {:induction false} IdsStayDistinct(ttl: int, run: seq<Action>)
    ensures Distinct(After(ttl, run).t.commands) && Ids(After(ttl, run).t.commands) <= Sent(run)
  {
    if run != [] {
      IdsStayDistinct(ttl, run[..|run| - 1]);
      IdsStep(ttl, After(ttl, run[..|run| - 1]), run[|run| - 1]);
    }
  }

  lemma {:induction false} DistinctRows(rows: seq<Command>, c: Command, d: Command)
    requires Distinct(rows) && c in rows && d in rows && c.id == d.id
    ensures c == d
  {
    if c == rows[0] {
      if d != rows[0] { IdListed(rows[1..], d); }
    } else {
      IdListed(rows[1..], c);
      DistinctRows(rows[1..], c, d);
    }
  }

  // ---------- What the updates do, row by row

  lemma {:induction false} MarkLength(rows: seq<Command>, id: string)
    ensures |Mark(rows, id)| == |rows|
  {
    if rows != [] { MarkLength(rows[1..], id); }
  }

  lemma {:induction false} MarkAt(rows: seq<Command>, id: string, k: nat)
    requires k < |rows|
    ensures |Mark(rows, id)| == |rows|
    ensures Mark(rows, id)[k] == if rows[k].id == id then rows[k].(status := "delivered") else rows[k]
  {
    if k > 0 { MarkAt(rows[1..], id, k - 1); } else { MarkLength(rows, id); }
  }

  lemma MarkPointwise(rows: seq<Command>, id: string)
    ensures |Mark(rows, id)| == |rows|
    ensures forall k | 0 <= k < |rows| ::
              Mark(rows, id)[k] == if rows[k].id == id then rows[k].(status := "delivered") else rows[k]
  {
    MarkLength(rows, id);
    forall k | 0 <= k < |rows|
      ensures Mark(rows, id)[k] == if rows[k].id == id then rows[k].(status := "delivered") else rows[k]
    {
      MarkAt(rows, id, k);
    }
  }

  lemma {:induction false} ResultLength(rows: seq<Command>, id: string, status: string, result: string, org: string,
                                        now: int)
    ensures |SetResult(rows, id, status, result, org, now)| == |rows|
  {
    if rows != [] { ResultLength(rows[1..], id, status, result, org, now); }
  }

  /** A result reaches exactly the rows with its id and organisation, and only their status, result and
      completion time. */
  lemma {:induction false} ResultAt(rows: seq<Command>, id: string, status: string, result: string, org: string,
                                    now: int, k: nat)
    requires k < |rows|
    ensures var u := SetResult(rows, id, status, result, org, now);
            |u| == |rows| &&
            u[k] == if rows[k].id == id && rows[k].org == org
                    then rows[k].(status := if status == "" then "completed" else status, result := Some(result),
                                  completed := Some(now))
                    else rows[k]
  {
    if k > 0 {
      ResultAt(rows[1..], id, status, result, org, now, k - 1);
    } else {
      ResultLength(rows, id, status, result, org, now);
    }
  }

  lemma ResultPointwise(rows: seq<Command>, id: string, status: string, result: string, org: string, now: int)
    ensures |SetResult(rows, id, status, result, org, now)| == |rows|
    ensures forall k | 0 <= k < |rows| ::
              SetResult(rows, id, status, result, org, now)[k] ==
              if rows[k].id == id && rows[k].org == org
              then rows[k].(status := if status == "" then "completed" else status, result := Some(result),
                            completed := Some(now))
              else rows[k]
  {
    ResultLength(rows, id, status, result, org, now);
    forall k | 0 <= k < |rows|
      ensures SetResult(rows, id, status, result, org, now)[k] ==
              if rows[k].id == id && rows[k].org == org
              then rows[k].(status := if status == "" then "completed" else status, result := Some(result),
                            completed := Some(now))
              else rows[k]
    {
      ResultAt(rows, id, status, result, org, now, k);
    }
  }

  lemma {:induction false} MarkOrigin(rows: seq<Command>, id: string, c: Command)
    requires c in Mark(rows, id)
    ensures c in rows || (c.id == id && c.status == "delivered")
  {
    if c in Mark(rows[1..], id) { MarkOrigin(rows[1..], id, c); }
  }

  lemma {:induction false} ResultOrigin(rows: seq<Command>, id: string, status: string, result: string, org: string,
                                        now: int, c: Command)
    requires c in SetResult(rows, id, status, result, org, now)
    ensures c in rows || (c.id == id && c.status == if status == "" then "completed" else status)
  {
    if c in SetResult(rows[1..], id, status, result, org, now) {
      ResultOrigin(rows[1..], id, status, result, org, now, c);
    }
  }

  /** Updating rows changes neither their ids nor their devices. */
  lemma {:induction false} UpdateIdentity(rows: seq<Command>, id: string, status: string, result: string, org: string,
                                          now: int, c: Command)
    requires c in Mark(rows, id) || c in SetResult(rows, id, status, result, org, now)
    ensures exists r :: r in rows && r.id == c.id && r.device == c.device
  {
    if c in Mark(rows[1..], id) || c in SetResult(rows[1..], id, status, result, org, now) {
      UpdateIdentity(rows[1..], id, status, result, org, now, c);
    } else {
      assert rows[0] in rows;
    }
  }

  /** The send goes through. */
  predicate Inserted(t: Tables, a: Action)
    requires a.Send?
  {
    a.name != "" && a.ok && a.device in t.devices && !HasCommand(t.commands, a.cmd)
  }

  /** A row is for the device it was sent to. */
  lemma RowIdentity(ttl: int, w: World, a: Action, c: Command)
    requires c in TablesAfter(ttl, w, a).commands
    ensures (exists r :: r in w.t.commands && r.id == c.id && r.device == c.device)
            || (a.Send? && Inserted(w.t, a) && c.id == a.cmd && c.device == a.device)
  {
    var rows := w.t.commands;
    match a
    case Delete(device, _) => StoreLaws.LeftExactly(rows, device, c);
    case Report(cmd, status, result, org, now, ok) =>
      if ok { UpdateIdentity(rows, cmd, status, result, org, now, c); }
    case MarkRead(l, ok) =>
      if ok && l in w.listeners && w.listeners[l].reading.Some? && w.listeners[l].written {
        UpdateIdentity(rows, w.listeners[l].reading.value, "", "", "", 0, c);
      }
    case _ =>
  }

  /** Where a row comes from: it was there, or was just sent, or carries the status just reported, or was just
      marked by a tick that had read it. */
  lemma RowOrigin(ttl: int, w: World, a: Action, c: Command)
    requires c in TablesAfter(ttl, w, a).commands
    ensures c in w.t.commands
            || (a.Send? && c.id == a.cmd && c.status == "pending" && c.created == a.now)
            || (a.Report? && c.id == a.cmd && c.status == if a.status == "" then "completed" else a.status)
            || (a.MarkRead? && a.l in w.listeners && w.listeners[a.l].reading == Some(c.id) && c.status == "delivered")
  {
    var rows := w.t.commands;
    match a
    case Delete(device, _) => StoreLaws.LeftExactly(rows, device, c);
    case Report(cmd, status, result, org, now, ok) => if ok { ResultOrigin(rows, cmd, status, result, org, now, c); }
    case MarkRead(l, ok) =>
      if ok && l in w.listeners && w.listeners[l].reading.Some? && w.listeners[l].written {
        MarkOrigin(rows, w.listeners[l].reading.value, c);
      }
    case _ =>
  }

  // ---------- Whether what was reported lasts

  /** A ticker has read the command and not yet marked it. */
  ghost predicate BeingRead(w: World, id: string) {
    exists l | l in w.listeners :: w.listeners[l].reading == Some(id)
  }

  ghost predicate StatusIs(rows: seq<Command>, id: string, status: string) {
    forall c | c in rows && c.id == id :: c.status == status
  }

  /** Nothing more is reported about the command. */
  ghost predicate Undisturbed(run: seq<Action>, more: seq<Action>, id: string) {
    FreshIds(run + more) && forall i | 0 <= i < |more| && more[i].Report? :: more[i].cmd != id
  }

  lemma LastingStep(ttl: int, w: World, a: Action, id: string, status: string)
    requires status != "pending" && StatusIs(w.t.commands, id, status) && (status == "delivered" || !BeingRead(w, id))
    requires (a.Report? || a.Send?) ==> a.cmd != id
    ensures var u := Step(ttl, w, a);
            StatusIs(u.t.commands, id, status) && (status == "delivered" || !BeingRead(u, id))
  {
    var u := Step(ttl, w, a);
    forall c | c in u.t.commands && c.id == id ensures c.status == status {
      RowOrigin(ttl, w, a, c);
    }
    if status != "delivered" {
      forall l | l in u.listeners ensures u.listeners[l].reading != Some(id) {
        assert l in w.listeners ==> w.listeners[l].reading != Some(id);
      }
    }
  }

  lemma {:induction false} Lasts(ttl: int, run: seq<Action>, more: seq<Action>, id: string, status: string)
    requires Undisturbed(run, more, id) && id in Sent(run) && status != "pending"
    requires var w := After(ttl, run);
             StatusIs(w.t.commands, id, status) && (status == "delivered" || !BeingRead(w, id))
    ensures var w := After(ttl, run + more);
            StatusIs(w.t.commands, id, status) && (status == "delivered" || !BeingRead(w, id))
    ensures id in Sent(run + more)
    decreases |more|
  {
    if more == [] {
      assert run + more == run;
    } else {
      var n := |more| - 1;
      var whole, front, a := run + more, more[..n], more[n];
      assert whole[..|whole| - 1] == run + front && whole[|whole| - 1] == a;
      FreshPrefix(whole, |whole| - 1);
      Lasts(ttl, run, front, id, status);
      assert FreshAt(whole, |whole| - 1);
      LastingStep(ttl, After(ttl, run + front), a, id, status);
    }
  }

  lemma QuietIsFresh(run: seq<Action>, more: seq<Action>)
    requires FreshIds(run) && forall i | 0 <= i < |more| :: !more[i].Create? && !more[i].Send?
    ensures FreshIds(run + more)
  {
    var whole := run + more;
    forall i {:trigger FreshAt(whole, i)} | 0 <= i < |whole| ensures FreshAt(whole, i) {
      if i < |run| {
        assert FreshAt(run, i) && whole[..i] == run[..i];
      } else {
        assert whole[i] == more[i - |run|];
      }
    }
  }

  lemma {:induction false} MarkedDelivered(rows: seq<Command>, id: string)
    requires id in Ids(rows)
    ensures exists c :: c in Mark(rows, id) && c.id == id && c.status == "delivered"
  {
    var marked := Mark(rows, id);
    if rows[0].id == id {
      assert marked[0] in marked;
    } else {
      MarkedDelivered(rows[1..], id);
      var c :| c in Mark(rows[1..], id) && c.id == id && c.status == "delivered";
      assert c in marked;
    }
  }

  /** A ticker that has read a command can still finish. */
  lemma ReaderMarks(ttl: int, run: seq<Action>, l: int, id: string)
    requires var w := After(ttl, run); l in w.listeners && w.listeners[l].reading == Some(id)
    ensures After(ttl, run + [Write(l), MarkRead(l, true)]).t.commands == Mark(After(ttl, run).t.commands, id)
  {
    var w := After(ttl, run);
    var one, two := run + [Write(l)], run + [Write(l), MarkRead(l, true)];
    assert one[..|one| - 1] == run && two[..|two| - 1] == one;
    var v := Step(ttl, w, Write(l));
    assert After(ttl, one) == v;
    assert v.listeners[l].reading == Some(id) && v.listeners[l].written && v.t == w.t;
    assert After(ttl, two) == Step(ttl, v, MarkRead(l, true));
  }

  /** The status is 'delivered' then. */
  lemma ReaderOverwrites(ttl: int, run: seq<Action>, l: int, c: Command)
    requires var w := After(ttl, run);
             c in w.t.commands && c.status != "delivered" && l in w.listeners && w.listeners[l].reading == Some(c.id)
    ensures !StatusIs(After(ttl, run + [Write(l), MarkRead(l, true)]).t.commands, c.id, c.status)
  {
    var rows := After(ttl, run).t.commands;
    ReaderMarks(ttl, run, l, c.id);
    IdListed(rows, c);
    MarkedDelivered(rows, c.id);
    var d :| d in Mark(rows, c.id) && d.id == c.id && d.status == "delivered";
  }

  /** The exact condition. Whatever follows, short of another report on it, a command that is not pending keeps its
      status if and only if that is 'delivered' or no ticker has read the command and is still to mark it. */
  lemma ResultSurvivesExactly(ttl: int, run: seq<Action>, c: Command)
    requires FreshIds(run) && c in After(ttl, run).t.commands && c.status != "pending"
    ensures (forall more {:trigger After(ttl, run + more)} | Undisturbed(run, more, c.id) ::
               StatusIs(After(ttl, run + more).t.commands, c.id, c.status))
            <==> c.status == "delivered" || !BeingRead(After(ttl, run), c.id)
  {
    var w := After(ttl, run);
    IdsStayDistinct(ttl, run);
    IdListed(w.t.commands, c);
    if c.status == "delivered" || !BeingRead(w, c.id) {
      forall d | d in w.t.commands && d.id == c.id ensures d.status == c.status { DistinctRows(w.t.commands, c, d); }
      forall more {:trigger After(ttl, run + more)} | Undisturbed(run, more, c.id)
        ensures StatusIs(After(ttl, run + more).t.commands, c.id, c.status)
      {
        Lasts(ttl, run, more, c.id, c.status);
      }
    } else {
      var l :| l in w.listeners && w.listeners[l].reading == Some(c.id);
      var more := [Write(l), MarkRead(l, true)];
      QuietIsFresh(run, more);
      ReaderOverwrites(ttl, run, l, c);
      assert Undisturbed(run, more, c.id);
    }
  }

  // ---------- A run that loses a result

  const BLANK := DeviceRequest("", "", None, None, "")

  const BEFORE_THE_TICK := [Create("d", "k", BLANK, "o", 0, true), Send("c", "d", "reboot", None, "o", 1, true),
                            Listen(0, "d", "o"), Read(0, true), Report("c", "completed", "done", "o", 2, true)]

  lemma CommandSent(ttl: int)
    ensures var w := After(ttl, BEFORE_THE_TICK[..2]);
            w.listeners == map[] && "d" in w.t.devices &&
            w.t.commands == [Command("c", "d", "reboot", "{}", "pending", None, 1, None, "o")]
  {
    assert BEFORE_THE_TICK[..0] == [];
    OneStep(ttl, BEFORE_THE_TICK, 0);
    OneStep(ttl, BEFORE_THE_TICK, 1);
  }

  lemma ListenerReads(t: Tables, sessions: map<string, Session>, c: Command)
    requires t.commands == [c] && PendingFor(c, "d", "o")
    ensures var w := World(t, sessions, map[0 := Listener("d", "o", None, false)]);
            ListenersAfter(w, Read(0, true)) == map[0 := Listener("d", "o", Some(c.id), false)]
  {
    assert t.commands[..0] == [];
    assert Oldest(t.commands[..0], "d", "o").None?;
    assert Oldest(t.commands, "d", "o") == Some(c);
  }

  lemma ListenerConnected(ttl: int)
    ensures var w := After(ttl, BEFORE_THE_TICK[..3]);
            w.t.commands == [Command("c", "d", "reboot", "{}", "pending", None, 1, None, "o")] &&
            w.listeners == map[0 := Listener("d", "o", None, false)]
  {
    CommandSent(ttl);
    OneStep(ttl, BEFORE_THE_TICK, 2);
  }

  lemma CommandRead(ttl: int)
    ensures var w := After(ttl, BEFORE_THE_TICK[..4]);
            w.t.commands == [Command("c", "d", "reboot", "{}", "pending", None, 1, None, "o")] &&
            w.listeners == map[0 := Listener("d", "o", Some("c"), false)]
  {
    ListenerConnected(ttl);
    var w := After(ttl, BEFORE_THE_TICK[..3]);
    ListenerReads(w.t, w.sessions, w.t.commands[0]);
    assert w == World(w.t, w.sessions, w.listeners);
    OneStep(ttl, BEFORE_THE_TICK, 3);
  }

  lemma ResultReported(ttl: int)
    ensures var w := After(ttl, BEFORE_THE_TICK);
            w.t.commands == [Command("c", "d", "reboot", "{}", "completed", Some("done"), 1, Some(2), "o")] &&
            0 in w.listeners && w.listeners[0].reading == Some("c")
  {
    CommandRead(ttl);
    OneStep(ttl, BEFORE_THE_TICK, 4);
    assert BEFORE_THE_TICK[..5] == BEFORE_THE_TICK;
    var rows := After(ttl, BEFORE_THE_TICK[..4]).t.commands;
    assert rows[1..] == [];
    assert SetResult(rows[1..], "c", "completed", "done", "o", 2) == [];
  }

  lemma OnlyOneSend(i: nat)
    requires i < |BEFORE_THE_TICK|
    ensures FreshAt(BEFORE_THE_TICK, i)
  {
    if i == 0 {
      assert BEFORE_THE_TICK[..0] == [];
    } else if i == 1 {
      assert BEFORE_THE_TICK[..1] == [BEFORE_THE_TICK[0]] && BEFORE_THE_TICK[..1][..0] == [];
      assert Sent(BEFORE_THE_TICK[..1][..0]) == {} && Sent(BEFORE_THE_TICK[..1]) == {};
    }
  }

  /** A reachable run in which a command is reported 'completed' and ends up 'delivered'. */
  lemma ResultIsOverwritten(ttl: int)
    ensures FreshIds(BEFORE_THE_TICK)
    ensures var rows := After(ttl, BEFORE_THE_TICK).t.commands;
            |rows| == 1 && rows[0].id == "c" && rows[0].status == "completed"
    ensures var rows := After(ttl, BEFORE_THE_TICK + [Write(0), MarkRead(0, true)]).t.commands;
            |rows| == 1 && rows[0].id == "c" && rows[0].status == "delivered"
  {
    forall i {:trigger FreshAt(BEFORE_THE_TICK, i)} | 0 <= i < |BEFORE_THE_TICK| ensures FreshAt(BEFORE_THE_TICK, i) {
      OnlyOneSend(i);
    }
    ResultReported(ttl);
    var rows := After(ttl, BEFORE_THE_TICK).t.commands;
    ReaderMarks(ttl, BEFORE_THE_TICK, 0, "c");
    assert rows[1..] == [] && Mark([], "c") == [];
  }
}
