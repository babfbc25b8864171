/** What a command websocket is written, over whole runs: by its ticker, commands in the order they were sent, each
    once, and all of them; and before that the command cached for its device
    (modules/commands/module.go:116, 205, 233-268). */
module DeliveryLaws {
  import opened Text
  import opened Sums
  import opened Store
  import opened StoreRuns
  import opened CommandLaws

  // ---------- When a command was sent

  /** The position of the send that handed out this id, or |run|. */
  function SentAt(run: seq<Action>, id: string): (p: nat)
    ensures p <= |run| && (p < |run| ==> run[p].Send? && run[p].cmd == id)
    ensures forall k | 0 <= k < p && run[k].Send? :: run[k].cmd != id
  {
    if run == [] then 0
    else
      var n := |run| - 1;
      var p := SentAt(run[..n], id);
      if p < n then p else if run[n].Send? && run[n].cmd == id then n else n + 1
  }

  lemma {:induction false} SentListed(run: seq<Action>, i: nat)
    requires i < |run| && run[i].Send?
    ensures run[i].cmd in Sent(run)
  {
    if i < |run| - 1 {
      assert run[..|run| - 1][i] == run[i];
      SentListed(run[..|run| - 1], i);
    }
  }

  lemma SentAtExactly(run: seq<Action>, i: nat)
    requires FreshIds(run) && i < |run| && run[i].Send?
    ensures SentAt(run, run[i].cmd) == i
  {
    var p := SentAt(run, run[i].cmd);
    if p < i {
      assert FreshAt(run, i) && run[..i][p] == run[p];
      SentListed(run[..i], p);
    }
  }

  /** Each send is stamped with a clock that does not run backwards. */
  ghost predicate SendsClocked(run: seq<Action>) {
    forall i, j | 0 <= i < j < |run| && run[i].Send? && run[j].Send? :: run[i].now <= run[j].now
  }

  // ---------- The table keeps commands in the order of their sends

  ghost predicate SentBefore(run: seq<Action>, c: Command, d: Command) {
    SentAt(run, c.id) < SentAt(run, d.id)
  }

  /** The row belongs to one of the first n actions, a send, and carries its time. */
  ghost predicate Stamped(run: seq<Action>, n: nat, c: Command) {
    SentAt(run, c.id) < n <= |run| && c.created == run[SentAt(run, c.id)].now
  }

  ghost predicate InSendOrder(run: seq<Action>, n: nat, rows: seq<Command>) {
    (forall i {:trigger rows[i]} | 0 <= i < |rows| :: Stamped(run, n, rows[i])) &&
    forall i, j {:trigger rows[i], rows[j]} | 0 <= i < j < |rows| :: SentBefore(run, rows[i], rows[j])
  }

  lemma AppendInOrder(run: seq<Action>, n: nat, rows: seq<Command>, c: Command)
    requires n < |run| && InSendOrder(run, n, rows) && SentAt(run, c.id) == n && c.created == run[n].now
    ensures InSendOrder(run, n + 1, rows + [c])
  {
    var all := rows + [c];
    assert Stamped(run, n + 1, c);
    forall i {:trigger all[i]} | 0 <= i < |all| ensures Stamped(run, n + 1, all[i]) {
      if i < |rows| { assert Stamped(run, n, rows[i]); }
    }
    forall i, j {:trigger all[i], all[j]} | 0 <= i < j < |all| ensures SentBefore(run, all[i], all[j]) {
      if j == |rows| { assert Stamped(run, n, rows[i]); } else { assert SentBefore(run, rows[i], rows[j]); }
    }
  }

  /** Rows with the same ids and times are in the same order. */
  lemma SameInOrder(run: seq<Action>, n: nat, rows: seq<Command>, rows': seq<Command>)
    requires InSendOrder(run, n, rows) && |rows'| == |rows|
    requires forall k {:trigger rows'[k]} | 0 <= k < |rows| ::
          rows'[k].id == rows[k].id && rows'[k].created == rows[k].created
    ensures InSendOrder(run, n, rows')
  {
    forall i, j {:trigger rows'[i], rows'[j]} | 0 <= i < j < |rows'| ensures SentBefore(run, rows'[i], rows'[j]) {
      assert SentBefore(run, rows[i], rows[j]);
    }
  }

  lemma TailInOrder(run: seq<Action>, n: nat, rows: seq<Command>)
    requires InSendOrder(run, n, rows) && rows != []
    ensures InSendOrder(run, n, rows[1..]) && Stamped(run, n, rows[0])
    ensures forall c | c in rows[1..] :: SentBefore(run, rows[0], c)
  {
    var rest := rows[1..];
    forall i, j {:trigger rest[i], rest[j]} | 0 <= i < j < |rest| ensures SentBefore(run, rest[i], rest[j]) {
      assert rest[i] == rows[i + 1] && rest[j] == rows[j + 1];
    }
    forall c | c in rest ensures SentBefore(run, rows[0], c) {
      var i :| 0 <= i < |rest| && rest[i] == c;
      assert rows[i + 1] == c;
    }
  }

  lemma ConsInOrder(run: seq<Action>, n: nat, c: Command, rest: seq<Command>)
    requires InSendOrder(run, n, rest) && Stamped(run, n, c) && forall d | d in rest :: SentBefore(run, c, d)
    ensures InSendOrder(run, n, [c] + rest)
  {
  }

  lemma {:induction false} WithoutInOrder(run: seq<Action>, n: nat, rows: seq<Command>, device: string)
    requires InSendOrder(run, n, rows)
    ensures InSendOrder(run, n, WithoutDevice(rows, device))
  {
    if rows != [] {
      TailInOrder(run, n, rows);
      WithoutInOrder(run, n, rows[1..], device);
      var rest := WithoutDevice(rows[1..], device);
      forall c | c in rest ensures SentBefore(run, rows[0], c) { StoreLaws.LeftExactly(rows[1..], device, c); }
      ConsInOrder(run, n, rows[0], rest);
      assert [] + rest == rest;
    }
  }

  lemma LaterInOrder(run: seq<Action>, n: nat, rows: seq<Command>)
    requires n < |run| && InSendOrder(run, n, rows)
    ensures InSendOrder(run, n + 1, rows)
  {
  }

  lemma ResultInOrder(run: seq<Action>, n: nat, rows: seq<Command>, a: Action)
    requires a.Report? && InSendOrder(run, n, rows)
    ensures InSendOrder(run, n, SetResult(rows, a.cmd, a.status, a.result, a.org, a.now))
  {
    var u := SetResult(rows, a.cmd, a.status, a.result, a.org, a.now);
    ResultLength(rows, a.cmd, a.status, a.result, a.org, a.now);
    forall k {:trigger u[k]} | 0 <= k < |rows| ensures u[k].id == rows[k].id && u[k].created == rows[k].created {
      ResultAt(rows, a.cmd, a.status, a.result, a.org, a.now, k);
    }
    SameInOrder(run, n, rows, u);
  }

  lemma MarkInOrder(run: seq<Action>, n: nat, rows: seq<Command>, id: string)
    requires InSendOrder(run, n, rows)
    ensures InSendOrder(run, n, Mark(rows, id))
  {
    MarkPointwise(rows, id);
    SameInOrder(run, n, rows, Mark(rows, id));
  }

  lemma SendInOrder(run: seq<Action>, n: nat, t: Tables)
    requires n < |run| && FreshIds(run) && run[n].Send? && InSendOrder(run, n, t.commands)
    ensures var a := run[n];
            InSendOrder(run, n + 1, SendCommand(t, a.cmd, a.device, a.name, a.body, a.org, a.now, a.ok).commands)
  {
    var a := run[n];
    SentAtExactly(run, n);
    LaterInOrder(run, n, t.commands);
    AppendInOrder(run, n, t.commands,
                  Command(a.cmd, a.device, a.name, OrElse(a.body, "{}"), "pending", None, a.now, None, a.org));
  }

  lemma DeleteInOrder(ttl: int, run: seq<Action>, n: nat, w: World, a: Action)
    requires a.Delete? && InSendOrder(run, n, w.t.commands)
    ensures InSendOrder(run, n, TablesAfter(ttl, w, a).commands)
  {
    WithoutInOrder(run, n, w.t.commands, a.id);
  }

  lemma ReportInOrder(ttl: int, run: seq<Action>, n: nat, w: World, a: Action)
    requires a.Report? && InSendOrder(run, n, w.t.commands)
    ensures InSendOrder(run, n, TablesAfter(ttl, w, a).commands)
  {
    ResultInOrder(run, n, w.t.commands, a);
  }

  lemma MarkReadInOrder(ttl: int, run: seq<Action>, n: nat, w: World, a: Action)
    requires a.MarkRead? && InSendOrder(run, n, w.t.commands)
    ensures InSendOrder(run, n, TablesAfter(ttl, w, a).commands)
  {
    if a.l in w.listeners && w.listeners[a.l].reading.Some? {
      MarkInOrder(run, n, w.t.commands, w.listeners[a.l].reading.value);
    }
  }

  lemma OtherCommands(ttl: int, w: World, a: Action)
    requires !a.Delete? && !a.Send? && !a.Report? && !a.MarkRead?
    ensures TablesAfter(ttl, w, a).commands == w.t.commands
  {
  }

  lemma OrderStep(ttl: int, run: seq<Action>, n: nat, w: World)
    requires n < |run| && FreshIds(run) && InSendOrder(run, n, w.t.commands)
    ensures InSendOrder(run, n + 1, TablesAfter(ttl, w, run[n]).commands)
  {
    var a := run[n];
    LaterInOrder(run, n, w.t.commands);
    if a.Send? {
      SendInOrder(run, n, w.t);
    } else if a.Delete? {
      DeleteInOrder(ttl, run, n + 1, w, a);
    } else if a.Report? {
      ReportInOrder(ttl, run, n + 1, w, a);
    } else if a.MarkRead? {
      MarkReadInOrder(ttl, run, n + 1, w, a);
    } else {
      OtherCommands(ttl, w, a);
    }
  }

  /** In every reachable state the command table is in the order of the sends, and each row has its send's time. */
  lemma {:induction false} TableInSendOrder(ttl: int, run: seq<Action>, n: nat)
    requires FreshIds(run) && n <= |run|
    ensures InSendOrder(run, n, After(ttl, run[..n]).t.commands)
  {
    if n > 0 {
      TableInSendOrder(ttl, run, n - 1);
      OneStep(ttl, run, n - 1);
      OrderStep(ttl, run, n - 1, After(ttl, run[..n - 1]));
    }
  }

  // ---------- The ticker's query

  /** What the ticker's query finds is pending and no pending row is older; it finds none only if there is none. */
  lemma {:induction false} OldestIsEarliest(rows: seq<Command>, device: string, org: string)
    ensures var c := Oldest(rows, device, org);
            if c.None? then forall r | r in rows :: !PendingFor(r, device, org)
            else c.value in rows && PendingFor(c.value, device, org) &&
                 forall r | r in rows && PendingFor(r, device, org) :: c.value.created <= r.created
  {
    if rows != [] {
      var n := |rows| - 1;
      OldestIsEarliest(rows[..n], device, org);
      assert rows == rows[..n] + [rows[n]];
    }
  }

  lemma FrontInOrder(run: seq<Action>, n: nat, rows: seq<Command>)
    requires InSendOrder(run, n, rows) && rows != []
    ensures InSendOrder(run, n, rows[..|rows| - 1]) && Stamped(run, n, rows[|rows| - 1])
    ensures forall c | c in rows[..|rows| - 1] :: SentBefore(run, c, rows[|rows| - 1]) && Stamped(run, n, c)
  {
    var m := |rows| - 1;
    var front := rows[..m];
    forall i, j {:trigger front[i], front[j]} | 0 <= i < j < m ensures SentBefore(run, front[i], front[j]) {
      assert front[i] == rows[i] && front[j] == rows[j];
    }
    forall c | c in front ensures SentBefore(run, c, rows[m]) && Stamped(run, n, c) {
      var i :| 0 <= i < m && front[i] == c;
      assert rows[i] == c;
    }
  }

  /** Under a clock that does not run backwards it is the pending command that was sent first. */
  lemma {:induction false} OldestSentFirst(run: seq<Action>, n: nat, rows: seq<Command>, device: string, org: string)
    requires InSendOrder(run, n, rows) && SendsClocked(run)
    ensures var c := Oldest(rows, device, org);
            if c.None? then forall r | r in rows :: !PendingFor(r, device, org)
            else c.value in rows && PendingFor(c.value, device, org) &&
                 forall r | r in rows && PendingFor(r, device, org) :: SentAt(run, c.value.id) <= SentAt(run, r.id)
  {
    if rows != [] {
      var m := |rows| - 1;
      var front := rows[..m];
      FrontInOrder(run, n, rows);
      OldestSentFirst(run, n, front, device, org);
      assert rows == front + [rows[m]];
      var rest := Oldest(front, device, org);
      if rest.Some? {
        assert SentBefore(run, rest.value, rows[m]) && Stamped(run, n, rest.value) && Stamped(run, n, rows[m]);
      }
    }
  }

  // ---------- Ticks

  /** A tick whose read, write and update nothing comes between. */
  function Tick(rows: seq<Command>, device: string, org: string): seq<Command> {
    var c := Oldest(rows, device, org);
    if c.None? then rows else Mark(rows, c.value.id)
  }

  /** The three actions of one tick; its query or its update may fail. */
  function TickActions(l: int, read: bool, marked: bool): seq<Action> {
    [Read(l, read), Write(l), MarkRead(l, marked)]
  }

  /** The ids that the ticker of a listener has written to its websocket, in order. */
  function Written(ttl: int, run: seq<Action>, l: int): seq<string> {
    if run == [] then []
    else
      var front, a := run[..|run| - 1], run[|run| - 1];
      var ls := After(ttl, front).listeners;
      Written(ttl, front, l) +
      if a == Write(l) && l in ls && ls[l].reading.Some? then [ls[l].reading.value] else []
  }

  /** What a tick of an idle listener does to the world. */
  function AfterTick(w: World, l: int, read: bool, marked: bool): World
    requires l in w.listeners
  {
    var c := Oldest(w.t.commands, w.listeners[l].device, w.listeners[l].org);
    if !read || c.None? then w else w.(t := MarkDelivered(w.t, c.value.id, marked))
  }

  ghost predicate IdleListener(w: World, l: int) {
    l in w.listeners && w.listeners[l].device != "" && w.listeners[l].reading.None? && !w.listeners[l].written
  }

  lemma StepsOfTick(ttl: int, w: World, l: int, read: bool, marked: bool)
    requires IdleListener(w, l)
    ensures var c := Oldest(w.t.commands, w.listeners[l].device, w.listeners[l].org);
            var v := Step(ttl, w, Read(l, read));
            l in v.listeners && v.listeners[l].reading == (if read && c.Some? then Some(c.value.id) else None) &&
            Step(ttl, Step(ttl, v, Write(l)), MarkRead(l, marked)) == AfterTick(w, l, read, marked)
  {
    var s := w.listeners[l];
    assert w.listeners[l := s] == w.listeners;
    if read && Oldest(w.t.commands, s.device, s.org).Some? {
      var id := Oldest(w.t.commands, s.device, s.org).value.id;
      var v := Step(ttl, w, Read(l, read));
      assert v.listeners == w.listeners[l := s.(reading := Some(id))];
      var u := Step(ttl, v, Write(l));
      assert u.listeners == w.listeners[l := s.(reading := Some(id), written := true)];
    }
  }

  lemma AfterTickActions(ttl: int, run: seq<Action>, l: int, read: bool, marked: bool)
    ensures var v := Step(ttl, After(ttl, run), Read(l, read));
            After(ttl, run + [Read(l, read)]) == v &&
            After(ttl, run + TickActions(l, read, marked)) == Step(ttl, Step(ttl, v, Write(l)), MarkRead(l, marked))
  {
    var one := run + [Read(l, read)];
    var two := one + [Write(l)];
    assert run + TickActions(l, read, marked) == two + [MarkRead(l, marked)];
    AfterNext(ttl, run, Read(l, read));
    AfterNext(ttl, one, Write(l));
    AfterNext(ttl, two, MarkRead(l, marked));
  }

  lemma WrittenNext(ttl: int, front: seq<Action>, a: Action, l: int)
    ensures var ls := After(ttl, front).listeners;
            Written(ttl, front + [a], l) ==
              if a == Write(l) && l in ls && ls[l].reading.Some? then Written(ttl, front, l) + [ls[l].reading.value]
              else Written(ttl, front, l)
  {
    assert (front + [a])[..|front|] == front;
  }

  lemma WrittenByTick(ttl: int, run: seq<Action>, l: int, read: bool, marked: bool)
    ensures var ls := After(ttl, run + [Read(l, read)]).listeners;
            Written(ttl, run + TickActions(l, read, marked), l) ==
              if l in ls && ls[l].reading.Some? then Written(ttl, run, l) + [ls[l].reading.value]
              else Written(ttl, run, l)
  {
    var one := run + [Read(l, read)];
    var two := one + [Write(l)];
    assert run + TickActions(l, read, marked) == two + [MarkRead(l, marked)];
    WrittenNext(ttl, run, Read(l, read), l);
    WrittenNext(ttl, one, Write(l), l);
    WrittenNext(ttl, two, MarkRead(l, marked), l);
  }

  /** Three consecutive actions of an idle listener are one undisturbed tick: what it writes is the oldest pending
      command, and the only thing it changes is that command's status, if the update goes through. */
  lemma TickIsAtomic(ttl: int, run: seq<Action>, l: int, read: bool, marked: bool)
    requires IdleListener(After(ttl, run), l)
    ensures var w := After(ttl, run);
            var c := Oldest(w.t.commands, w.listeners[l].device, w.listeners[l].org);
            var more := run + TickActions(l, read, marked);
            After(ttl, more) == AfterTick(w, l, read, marked) &&
            Written(ttl, more, l) == Written(ttl, run, l) + if read && c.Some? then [c.value.id] else []
  {
    assert Written(ttl, run, l) + [] == Written(ttl, run, l);
    AfterTickActions(ttl, run, l, read, marked);
    StepsOfTick(ttl, After(ttl, run), l, read, marked);
    WrittenByTick(ttl, run, l, read, marked);
  }

  /** The row after a tick whose query found found. */
  function Ticked(c: Command, found: Option<Command>, marked: bool): Command {
    if found.Some? && marked && c.id == found.value.id then c.(status := "delivered") else c
  }

  /** What the three actions of one listener do to the tables and to itself: nothing if it has no device id, the query
      fails or no command is pending for it; otherwise it is written the command found, and if the update goes through
      exactly the rows with that id become 'delivered'. */
  lemma TickIsThreeActions(ttl: int, w: World, l: int, read: bool, marked: bool)
    requires l in w.listeners && w.listeners[l].reading.None? && !w.listeners[l].written
    ensures var s := w.listeners[l];
            var found := if s.device != "" && read then Oldest(w.t.commands, s.device, s.org) else None;
            var v := Step(ttl, Step(ttl, w, Read(l, read)), Write(l));
            var u := Step(ttl, v, MarkRead(l, marked));
            && (l in v.listeners && v.listeners[l].reading == if found.Some? then Some(found.value.id) else None)
            && |u.t.commands| == |w.t.commands|
            && u == w.(t := w.t.(commands := u.t.commands))
            && forall k | 0 <= k < |w.t.commands| :: u.t.commands[k] == Ticked(w.t.commands[k], found, marked)
  {
    var s := w.listeners[l];
    if s.device != "" {
      StepsOfTick(ttl, w, l, read, marked);
      var c := Oldest(w.t.commands, s.device, s.org);
      if c.Some? { MarkPointwise(w.t.commands, c.value.id); }
    } else {
      assert w == w.(t := w.t.(commands := w.t.commands));
    }
  }

  // ---------- The order of delivery

  /** Between the ticks of one listener anything may happen that is not an action of that listener. */
  datatype Move = Do(a: Action) | TickOf(read: bool, marked: bool)

  predicate Apart(a: Action, l: int) {
    match a
    case Listen(m, _, _) => m != l
    case Read(m, _) => m != l
    case Write(m) => m != l
    case MarkRead(m, _) => m != l
    case Hangup(m) => m != l
    case _ => true
  }

  function Actions(m: Move, l: int): seq<Action> {
    match m
    case Do(a) => [a]
    case TickOf(read, marked) => TickActions(l, read, marked)
  }

  function Flatten(moves: seq<Move>, l: int): seq<Action> {
    if moves == [] then [] else Flatten(moves[..|moves| - 1], l) + Actions(moves[|moves| - 1], l)
  }

  ghost predicate MovesApart(moves: seq<Move>, l: int) {
    forall i | 0 <= i < |moves| && moves[i].Do? :: Apart(moves[i].a, l)
  }

  ghost predicate AllMarked(moves: seq<Move>) {
    forall i | 0 <= i < |moves| && moves[i].TickOf? :: moves[i].marked
  }

  /** The first is sent before the second, or, unless strict, they are the same command. */
  ghost predicate Precedes(run: seq<Action>, strict: bool, x: string, y: string) {
    SentAt(run, x) < SentAt(run, y) || (!strict && SentAt(run, x) == SentAt(run, y))
  }

  ghost predicate Follow(run: seq<Action>, strict: bool, ids: seq<string>) {
    forall i, j {:trigger ids[i], ids[j]} | 0 <= i < j < |ids| :: Precedes(run, strict, ids[i], ids[j])
  }

  /** What has been written precedes the command. */
  ghost predicate Behind(run: seq<Action>, strict: bool, ids: seq<string>, id: string) {
    forall i {:trigger ids[i]} | 0 <= i < |ids| :: Precedes(run, strict, ids[i], id)
  }

  /** What the listener has written is in order, and everything pending for it comes behind. */
  ghost predicate Delivering(run: seq<Action>, n: nat, strict: bool, w: World, l: int, ids: seq<string>) {
    IdleListener(w, l) && Follow(run, strict, ids) &&
    (forall i {:trigger ids[i]} | 0 <= i < |ids| :: SentAt(run, ids[i]) < n) &&
    forall c {:trigger Behind(run, strict, ids, c.id)} | c in w.t.commands &&
      PendingFor(c, w.listeners[l].device, w.listeners[l].org) :: Behind(run, strict, ids, c.id)
  }

  lemma ApartStep(ttl: int, run: seq<Action>, n: nat, strict: bool, w: World, l: int, ids: seq<string>)
    requires n < |run| && FreshIds(run) && NoPendingReports(run) && Apart(run[n], l)
    requires Delivering(run, n, strict, w, l, ids)
    ensures Delivering(run, n + 1, strict, Step(ttl, w, run[n]), l, ids)
  {
    var u, s := Step(ttl, w, run[n]), w.listeners[l];
    assert u.listeners[l] == s;
    forall c {:trigger Behind(run, strict, ids, c.id)} | c in u.t.commands && PendingFor(c, s.device, s.org)
      ensures Behind(run, strict, ids, c.id)
    {
      RowOrigin(ttl, w, run[n], c);
      if c !in w.t.commands {
        SentAtExactly(run, n);
      }
    }
  }

  lemma NewlyWritten(run: seq<Action>, strict: bool, ids: seq<string>, id: string)
    requires Follow(run, strict, ids) && Behind(run, strict, ids, id)
    ensures Follow(run, strict, ids + [id])
  {
  }

  lemma StillBehind(run: seq<Action>, strict: bool, ids: seq<string>, id: string, later: string)
    requires Behind(run, strict, ids, later) && Precedes(run, strict, id, later)
    ensures Behind(run, strict, ids + [id], later)
  {
  }

  lemma SameSend(run: seq<Action>, x: string, y: string)
    requires SentAt(run, x) == SentAt(run, y) < |run|
    ensures x == y
  {
  }

  lemma StampedRow(run: seq<Action>, n: nat, rows: seq<Command>, c: Command)
    requires InSendOrder(run, n, rows) && c in rows
    ensures Stamped(run, n, c)
  {
    var i :| 0 <= i < |rows| && rows[i] == c;
  }

  lemma {:induction false} NotMarked(rows: seq<Command>, id: string, c: Command)
    requires c in Mark(rows, id)
    ensures c.id == id ==> c.status == "delivered"
  {
    if c in Mark(rows[1..], id) { NotMarked(rows[1..], id, c); }
  }

  /** What is pending after the update was before, and comes behind the command just written. */
  lemma LeftBehind(run: seq<Action>, n: nat, strict: bool, rows: seq<Command>, first: Command, marked: bool, c: Command)
    requires InSendOrder(run, n, rows) && (strict ==> marked) && first in rows && c.status == "pending"
    requires c in if marked then Mark(rows, first.id) else rows
    requires forall r | r in rows && PendingFor(r, c.device, c.org) :: SentAt(run, first.id) <= SentAt(run, r.id)
    ensures c in rows && Precedes(run, strict, first.id, c.id)
  {
    if marked {
      MarkOrigin(rows, first.id, c);
      NotMarked(rows, first.id, c);
    }
    StampedRow(run, n, rows, c);
    if SentAt(run, first.id) == SentAt(run, c.id) { SameSend(run, first.id, c.id); }
  }

  lemma TickDelivers(run: seq<Action>, n: nat, strict: bool, w: World, l: int, ids: seq<string>, marked: bool)
    requires n <= |run| && SendsClocked(run) && InSendOrder(run, n, w.t.commands) && (strict ==> marked)
    requires Delivering(run, n, strict, w, l, ids)
    ensures var c := Oldest(w.t.commands, w.listeners[l].device, w.listeners[l].org);
            c.Some? ==> Delivering(run, n, strict, AfterTick(w, l, true, marked), l, ids + [c.value.id])
  {
    var rows, s := w.t.commands, w.listeners[l];
    OldestSentFirst(run, n, rows, s.device, s.org);
    if Oldest(rows, s.device, s.org).Some? {
      var first := Oldest(rows, s.device, s.org).value;
      var now, u := ids + [first.id], AfterTick(w, l, true, marked);
      assert Behind(run, strict, ids, first.id);
      NewlyWritten(run, strict, ids, first.id);
      StampedRow(run, n, rows, first);
      forall c {:trigger Behind(run, strict, now, c.id)} | c in u.t.commands && PendingFor(c, s.device, s.org)
        ensures Behind(run, strict, now, c.id)
      {
        assert u.t.commands == if marked then Mark(rows, first.id) else rows;
        LeftBehind(run, n, strict, rows, first, marked, c);
        assert Behind(run, strict, ids, c.id);
        StillBehind(run, strict, ids, first.id, c.id);
      }
    }
  }

  ghost function Connected(before: seq<Action>, l: int, device: string, org: string, moves: seq<Move>): seq<Action> {
    before + [Listen(l, device, org)] + Flatten(moves, l)
  }

  lemma {:induction false} NothingWritten(ttl: int, run: seq<Action>, l: int)
    requires forall i | 0 <= i < |run| :: Apart(run[i], l)
    ensures Written(ttl, run, l) == []
  {
    if run != [] { NothingWritten(ttl, run[..|run| - 1], l); }
  }

  lemma StartsDelivering(ttl: int, before: seq<Action>, l: int, device: string, org: string)
    requires device != "" && forall i | 0 <= i < |before| :: Apart(before[i], l)
    ensures var run := before + [Listen(l, device, org)];
            var w := After(ttl, run);
            Written(ttl, run, l) == [] && w.t == After(ttl, before).t &&
            l in w.listeners && w.listeners[l] == Listener(device, org, None, false)
  {
    var run := before + [Listen(l, device, org)];
    assert run[..|run| - 1] == before;
    NothingWritten(ttl, before, l);
  }

  lemma DeliversLater(run: seq<Action>, n: nat, m: nat, strict: bool, w: World, l: int, ids: seq<string>)
    requires n <= m && Delivering(run, n, strict, w, l, ids)
    ensures Delivering(run, m, strict, w, l, ids)
  {
  }

  lemma DoDelivers(ttl: int, whole: seq<Action>, front: seq<Action>, l: int, a: Action, strict: bool, ids: seq<string>)
    requires FreshIds(whole) && NoPendingReports(whole) && front + [a] <= whole && Apart(a, l)
    requires Delivering(whole, |front|, strict, After(ttl, front), l, ids)
    ensures Delivering(whole, |front| + 1, strict, After(ttl, front + [a]), l, ids)
    ensures Written(ttl, front + [a], l) == Written(ttl, front, l)
  {
    AfterNext(ttl, front, a);
    WrittenNext(ttl, front, a, l);
    assert whole[|front|] == a;
    ApartStep(ttl, whole, |front|, strict, After(ttl, front), l, ids);
  }

  /** A tick of which nothing is written changes nothing. */
  lemma TickMoves(run: seq<Action>, n: nat, strict: bool, w: World, l: int, ids: seq<string>, read: bool, marked: bool)
    requires n + 3 <= |run| && SendsClocked(run) && InSendOrder(run, n, w.t.commands) && (strict ==> marked)
    requires Delivering(run, n, strict, w, l, ids)
    ensures var c := Oldest(w.t.commands, w.listeners[l].device, w.listeners[l].org);
            Delivering(run, n + 3, strict, AfterTick(w, l, read, marked), l,
                       ids + if read && c.Some? then [c.value.id] else [])
  {
    var c := Oldest(w.t.commands, w.listeners[l].device, w.listeners[l].org);
    if read && c.Some? {
      TickDelivers(run, n, strict, w, l, ids, marked);
      DeliversLater(run, n, n + 3, strict, AfterTick(w, l, true, marked), l, ids + [c.value.id]);
    } else {
      assert ids + [] == ids;
      DeliversLater(run, n, n + 3, strict, w, l, ids);
    }
  }

  lemma Regroup(a: seq<string>, b: seq<string>, c: seq<string>)
    ensures a + b + c == a + (b + c)
  {
  }

  lemma TickOfDelivers(ttl: int, whole: seq<Action>, front: seq<Action>, l: int, read: bool, marked: bool, strict: bool,
                       first: seq<string>)
    requires FreshIds(whole) && SendsClocked(whole) && (strict ==> marked)
    requires front + TickActions(l, read, marked) <= whole
    requires Delivering(whole, |front|, strict, After(ttl, front), l, first + Written(ttl, front, l))
    ensures var run := front + TickActions(l, read, marked);
            Delivering(whole, |front| + 3, strict, After(ttl, run), l, first + Written(ttl, run, l))
  {
    var w, ids := After(ttl, front), Written(ttl, front, l);
    assert whole[..|front|] == front;
    TickIsAtomic(ttl, front, l, read, marked);
    TableInSendOrder(ttl, whole, |front|);
    TickMoves(whole, |front|, strict, w, l, first + ids, read, marked);
    Regroup(first, ids, Written(ttl, front + TickActions(l, read, marked), l)[|ids|..]);
  }

  /** If the websocket starts in order, having been written first, its ticker keeps it so. */
  lemma {:induction false} KeepsDelivering(ttl: int, whole: seq<Action>, before: seq<Action>, l: int, device: string,
                                           org: string, moves: seq<Move>, strict: bool, first: seq<string>)
    requires FreshIds(whole) && SendsClocked(whole) && NoPendingReports(whole) && device != ""
    requires Connected(before, l, device, org, moves) <= whole && MovesApart(moves, l) && (strict ==> AllMarked(moves))
    requires forall i | 0 <= i < |before| :: Apart(before[i], l)
    requires Delivering(whole, |before| + 1, strict, After(ttl, before + [Listen(l, device, org)]), l, first)
    ensures var run := Connected(before, l, device, org, moves);
            Delivering(whole, |run|, strict, After(ttl, run), l, first + Written(ttl, run, l))
    decreases |moves|
  {
    var run := Connected(before, l, device, org, moves);
    if moves == [] {
      assert run == before + [Listen(l, device, org)] && first + [] == first;
      StartsDelivering(ttl, before, l, device, org);
    } else {
      var n := |moves| - 1;
      var front := Connected(before, l, device, org, moves[..n]);
      assert run == front + Actions(moves[n], l);
      KeepsDelivering(ttl, whole, before, l, device, org, moves[..n], strict, first);
      match moves[n] {
        case Do(a) => DoDelivers(ttl, whole, front, l, a, strict, first + Written(ttl, front, l));
        case TickOf(read, marked) => TickOfDelivers(ttl, whole, front, l, read, marked, strict, first);
      }
    }
  }

  /** Order of delivery, over whole runs. The ticker of a listener that connects at any time, with undisturbed ticks and
      anything at all between them, writes commands in the order they were sent; and each at most once if its updates go
      through. An update that fails can only make it write the same command again. */
  lemma SentInCreationOrder(ttl: int, before: seq<Action>, l: int, device: string, org: string, moves: seq<Move>)
    requires var run := Connected(before, l, device, org, moves);
             FreshIds(run) && SendsClocked(run) && NoPendingReports(run)
    requires device != "" && MovesApart(moves, l) && forall i | 0 <= i < |before| :: Apart(before[i], l)
    ensures var run := Connected(before, l, device, org, moves);
            Follow(run, AllMarked(moves), Written(ttl, run, l))
  {
    var run := Connected(before, l, device, org, moves);
    StartsDelivering(ttl, before, l, device, org);
    KeepsDelivering(ttl, run, before, l, device, org, moves, AllMarked(moves), []);
    assert [] + Written(ttl, run, l) == Written(ttl, run, l);
  }

  // ---------- Commands written again

  /** With a command pending, a tick whose update fails makes the next tick write the same command again. */
  lemma FailedUpdateRepeats(ttl: int, run: seq<Action>, l: int, marked: bool)
    requires var w := After(ttl, run);
             IdleListener(w, l) && Oldest(w.t.commands, w.listeners[l].device, w.listeners[l].org).Some?
    ensures var w := After(ttl, run);
            var id := Oldest(w.t.commands, w.listeners[l].device, w.listeners[l].org).value.id;
            Written(ttl, run + TickActions(l, true, false) + TickActions(l, true, marked), l)
            == Written(ttl, run, l) + [id] + [id]
  {
    TickIsAtomic(ttl, run, l, true, false);
    TickIsAtomic(ttl, run + TickActions(l, true, false), l, true, marked);
  }

  lemma {:induction false} PendingListed(rows: seq<Command>, c: Command)
    requires c in rows && c.status == "pending"
    ensures IsPending(rows, c.id)
  {
    if c != rows[0] { PendingListed(rows[1..], c); }
  }

  /** The command is not pending, and the listener is not about to write it. */
  ghost predicate Settled(w: World, l: int, id: string) {
    !IsPending(w.t.commands, id) && (l in w.listeners ==> w.listeners[l].reading != Some(id))
  }

  lemma SettledStep(ttl: int, w: World, a: Action, l: int, id: string)
    requires Settled(w, l, id) && (a.Send? ==> a.cmd != id) && (a.Report? ==> a.status != "pending")
    ensures Settled(Step(ttl, w, a), l, id)
  {
    BecomesPendingExactly(ttl, w, a, id);
    if a.Read? && a.l == l && l in w.listeners {
      var c := Oldest(w.t.commands, w.listeners[l].device, w.listeners[l].org);
      if c.Some? { PendingListed(w.t.commands, c.value); }
    }
  }

  lemma NextStaysSettled(ttl: int, front: seq<Action>, a: Action, l: int, id: string)
    requires FreshIds(front + [a]) && NoPendingReports(front + [a])
    requires id in Sent(front) && Settled(After(ttl, front), l, id)
    ensures id in Sent(front + [a]) && Settled(After(ttl, front + [a]), l, id)
    ensures multiset(Written(ttl, front + [a], l))[id] == multiset(Written(ttl, front, l))[id]
  {
    var n, whole := |front|, front + [a];
    assert whole[..n] == front && whole[n] == a;
    assert FreshAt(whole, n);
    AfterNext(ttl, front, a);
    WrittenNext(ttl, front, a, l);
    SettledStep(ttl, After(ttl, front), a, l, id);
  }

  lemma {:induction false} NotWrittenAgain(ttl: int, run: seq<Action>, more: seq<Action>, l: int, id: string)
    requires FreshIds(run + more) && NoPendingReports(run + more)
    requires id in Sent(run) && Settled(After(ttl, run), l, id)
    ensures id in Sent(run + more) && Settled(After(ttl, run + more), l, id)
    ensures multiset(Written(ttl, run + more, l))[id] == multiset(Written(ttl, run, l))[id]
    decreases |more|
  {
    if more == [] {
      assert run + more == run;
    } else {
      var n := |more| - 1;
      var front := run + more[..n];
      assert run + more == front + [more[n]];
      assert (run + more)[..|run| + n] == front;
      FreshPrefix(run + more, |run| + n);
      NotWrittenAgain(ttl, run, more[..n], l, id);
      NextStaysSettled(ttl, front, more[n], l, id);
    }
  }

  lemma {:induction false} SentGrows(run: seq<Action>, more: seq<Action>)
    ensures Sent(run) <= Sent(run + more)
  {
    if more == [] {
      assert run + more == run;
    } else {
      var n := |more| - 1;
      SentGrows(run, more[..n]);
      assert (run + more)[..|run| + n] == run + more[..n];
    }
  }

  lemma MarkSettles(w: World, l: int, c: Command)
    requires IdleListener(w, l) && Oldest(w.t.commands, w.listeners[l].device, w.listeners[l].org) == Some(c)
    ensures Settled(AfterTick(w, l, true, true), l, c.id)
  {
    PendingMark(w.t.commands, c.id, c.id);
  }

  lemma MarkedIsSettled(ttl: int, run: seq<Action>, l: int, c: Command)
    requires var w := After(ttl, run);
             IdleListener(w, l) && Oldest(w.t.commands, w.listeners[l].device, w.listeners[l].org) == Some(c)
    ensures var base := run + TickActions(l, true, true);
            c.id in Sent(base) && Settled(After(ttl, base), l, c.id)
  {
    TickIsAtomic(ttl, run, l, true, true);
    MarkSettles(After(ttl, run), l, c);
    IdsStayDistinct(ttl, run);
    IdListed(After(ttl, run).t.commands, c);
    SentGrows(run, TickActions(l, true, true));
  }

  /** Nothing that may follow base makes the listener write this id again. */
  ghost predicate NeverAgain(ttl: int, base: seq<Action>, l: int, id: string) {
    forall more {:trigger Written(ttl, base + more, l)} | FreshIds(base + more) && NoPendingReports(base + more) ::
      multiset(Written(ttl, base + more, l))[id] == multiset(Written(ttl, base, l))[id]
  }

  lemma MarkedNeverAgain(ttl: int, run: seq<Action>, l: int, c: Command)
    requires var w := After(ttl, run);
             IdleListener(w, l) && Oldest(w.t.commands, w.listeners[l].device, w.listeners[l].org) == Some(c)
    ensures NeverAgain(ttl, run + TickActions(l, true, true), l, c.id)
  {
    var base := run + TickActions(l, true, true);
    MarkedIsSettled(ttl, run, l, c);
    forall more {:trigger Written(ttl, base + more, l)} | FreshIds(base + more) && NoPendingReports(base + more)
      ensures multiset(Written(ttl, base + more, l))[c.id] == multiset(Written(ttl, base, l))[c.id]
    {
      NotWrittenAgain(ttl, base, more, l, c.id);
    }
  }

  lemma QuietTick(run: seq<Action>, l: int, read: bool, marked: bool)
    requires FreshIds(run) && NoPendingReports(run)
    ensures FreshIds(run + TickActions(l, read, marked)) && NoPendingReports(run + TickActions(l, read, marked))
  {
    QuietIsFresh(run, TickActions(l, read, marked));
  }

  lemma UnmarkedAgain(ttl: int, run: seq<Action>, l: int, c: Command)
    requires FreshIds(run) && NoPendingReports(run)
    requires var w := After(ttl, run);
             IdleListener(w, l) && Oldest(w.t.commands, w.listeners[l].device, w.listeners[l].org) == Some(c)
    ensures !NeverAgain(ttl, run + TickActions(l, true, false), l, c.id)
  {
    var base, more := run + TickActions(l, true, false), TickActions(l, true, true);
    QuietTick(run, l, true, false);
    QuietTick(base, l, true, true);
    TickIsAtomic(ttl, run, l, true, false);
    FailedUpdateRepeats(ttl, run, l, true);
    var once := Written(ttl, base, l);
    assert Written(ttl, base + more, l) == once + [c.id];
    assert multiset(once + [c.id])[c.id] == multiset(once)[c.id] + 1;
  }

  /** The exact condition for 'never again'. Whatever follows a tick that has written a command, short of a result that
      reports 'pending', its listener writes that command no more if and only if the tick's update went through. */
  lemma RepeatsExactly(ttl: int, run: seq<Action>, l: int, marked: bool)
    requires FreshIds(run) && NoPendingReports(run)
    requires var w := After(ttl, run);
             IdleListener(w, l) && Oldest(w.t.commands, w.listeners[l].device, w.listeners[l].org).Some?
    ensures var w := After(ttl, run);
            var id := Oldest(w.t.commands, w.listeners[l].device, w.listeners[l].org).value.id;
            NeverAgain(ttl, run + TickActions(l, true, marked), l, id) <==> marked
  {
    var w := After(ttl, run);
    var c := Oldest(w.t.commands, w.listeners[l].device, w.listeners[l].org).value;
    if marked {
      MarkedNeverAgain(ttl, run, l, c);
    } else {
      UnmarkedAgain(ttl, run, l, c);
    }
  }

  // ---------- The cache, and the whole websocket

  /** The cache of sent commands: a send stores under the device id, a result deletes under the command id. */
  function CacheAfter(t: Tables, cache: map<string, string>, a: Action): map<string, string> {
    match a
    case Send(cmd, device, _, _, _, _, _) => if Inserted(t, a) then cache[device := cmd] else cache
    case Report(cmd, _, _, org, _, ok) => if ok && Owns(t.commands, cmd, org) then cache - {cmd} else cache
    case _ => cache
  }

  function Cached(ttl: int, run: seq<Action>): map<string, string> {
    if run == [] then map[]
    else CacheAfter(After(ttl, run[..|run| - 1]).t, Cached(ttl, run[..|run| - 1]), run[|run| - 1])
  }

  /** What a new websocket for a device is written before its first tick. */
  function FirstWritten(cache: map<string, string>, device: string): seq<string> {
    if device in cache then [cache[device]] else []
  }

  /** All that is written to the websocket of a listener with a device id, in order. */
  function Socket(ttl: int, run: seq<Action>, l: int): seq<string> {
    if run == [] then []
    else
      var front, a := run[..|run| - 1], run[|run| - 1];
      var ls := After(ttl, front).listeners;
      Socket(ttl, front, l) +
      if a.Listen? && a.l == l then FirstWritten(Cached(ttl, front), a.device)
      else if a == Write(l) && l in ls && ls[l].reading.Some? then [ls[l].reading.value]
      else []
  }

  /** No command in the table was sent to a device after the one cached for it. */
  ghost predicate CachedIsLatest(run: seq<Action>, n: nat, rows: seq<Command>, cache: map<string, string>) {
    forall d {:trigger cache[d]} | d in cache ::
      SentAt(run, cache[d]) < n && forall c | c in rows && c.device == d :: SentAt(run, c.id) <= SentAt(run, cache[d])
  }

  lemma CacheStep(ttl: int, run: seq<Action>, n: nat, w: World, cache: map<string, string>)
    requires n < |run| && FreshIds(run) && InSendOrder(run, n, w.t.commands)
    requires CachedIsLatest(run, n, w.t.commands, cache)
    ensures CachedIsLatest(run, n + 1, TablesAfter(ttl, w, run[n]).commands, CacheAfter(w.t, cache, run[n]))
  {
    var a := run[n];
    var rows, next := TablesAfter(ttl, w, a).commands, CacheAfter(w.t, cache, a);
    if a.Send? { SentAtExactly(run, n); }
    forall d {:trigger next[d]} | d in next
      ensures SentAt(run, next[d]) < n + 1
      ensures forall c | c in rows && c.device == d :: SentAt(run, c.id) <= SentAt(run, next[d])
    {
      forall c | c in rows && c.device == d ensures SentAt(run, c.id) <= SentAt(run, next[d]) {
        RowIdentity(ttl, w, a, c);
        if r :| r in w.t.commands && r.id == c.id && r.device == c.device {
          StampedRow(run, n, w.t.commands, r);
        }
      }
    }
  }

  /** In every reachable state no command in the table was sent to a device after the one cached for it. */
  lemma {:induction false} CacheHoldsLatest(ttl: int, run: seq<Action>, n: nat)
    requires FreshIds(run) && n <= |run|
    ensures CachedIsLatest(run, n, After(ttl, run[..n]).t.commands, Cached(ttl, run[..n]))
  {
    if n > 0 {
      CacheHoldsLatest(ttl, run, n - 1);
      TableInSendOrder(ttl, run, n - 1);
      OneStep(ttl, run, n - 1);
      assert run[..n][..n - 1] == run[..n - 1];
      CacheStep(ttl, run, n - 1, After(ttl, run[..n - 1]), Cached(ttl, run[..n - 1]));
    }
  }

  lemma {:induction false} SocketSilent(ttl: int, run: seq<Action>, l: int)
    requires forall i | 0 <= i < |run| :: Apart(run[i], l)
    ensures Socket(ttl, run, l) == []
  {
    if run != [] { SocketSilent(ttl, run[..|run| - 1], l); }
  }

  lemma SocketNext(ttl: int, front: seq<Action>, a: Action, l: int)
    ensures var ls := After(ttl, front).listeners;
            Socket(ttl, front + [a], l) ==
              if a.Listen? && a.l == l then Socket(ttl, front, l) + FirstWritten(Cached(ttl, front), a.device)
              else if a == Write(l) && l in ls && ls[l].reading.Some? then Socket(ttl, front, l) + [ls[l].reading.value]
              else Socket(ttl, front, l)
  {
    assert (front + [a])[..|front|] == front;
  }

  /** After the connection, a step adds to the websocket what it adds to the ticker's log. */
  lemma SocketFollows(ttl: int, front: seq<Action>, a: Action, l: int, first: seq<string>)
    requires !(a.Listen? && a.l == l) && Socket(ttl, front, l) == first + Written(ttl, front, l)
    ensures Socket(ttl, front + [a], l) == first + Written(ttl, front + [a], l)
  {
    SocketNext(ttl, front, a, l);
    WrittenNext(ttl, front, a, l);
  }

  lemma SocketFollowsTick(ttl: int, front: seq<Action>, l: int, read: bool, marked: bool, first: seq<string>)
    requires Socket(ttl, front, l) == first + Written(ttl, front, l)
    ensures var run := front + TickActions(l, read, marked); Socket(ttl, run, l) == first + Written(ttl, run, l)
  {
    var one := front + [Read(l, read)];
    var two := one + [Write(l)];
    assert front + TickActions(l, read, marked) == two + [MarkRead(l, marked)];
    SocketFollows(ttl, front, Read(l, read), l, first);
    SocketFollows(ttl, one, Write(l), l, first);
    SocketFollows(ttl, two, MarkRead(l, marked), l, first);
  }

  lemma SocketStarts(ttl: int, before: seq<Action>, l: int, device: string, org: string)
    requires device != "" && forall i | 0 <= i < |before| :: Apart(before[i], l)
    ensures var run := before + [Listen(l, device, org)];
            Socket(ttl, run, l) == FirstWritten(Cached(ttl, before), device) + Written(ttl, run, l)
  {
    SocketSilent(ttl, before, l);
    SocketNext(ttl, before, Listen(l, device, org), l);
    StartsDelivering(ttl, before, l, device, org);
  }

  lemma ConnectedStep(before: seq<Action>, l: int, device: string, org: string, moves: seq<Move>)
    ensures moves == [] ==> Connected(before, l, device, org, moves) == before + [Listen(l, device, org)]
    ensures moves != [] ==>
              Connected(before, l, device, org, moves) ==
              Connected(before, l, device, org, moves[..|moves| - 1]) + Actions(moves[|moves| - 1], l)
  {
  }

  lemma SocketFollowsMove(ttl: int, front: seq<Action>, l: int, m: Move, first: seq<string>)
    requires Socket(ttl, front, l) == first + Written(ttl, front, l) && (m.Do? ==> Apart(m.a, l))
    ensures var run := front + Actions(m, l); Socket(ttl, run, l) == first + Written(ttl, run, l)
  {
    match m {
      case Do(a) => SocketFollows(ttl, front, a, l, first);
      case TickOf(read, marked) => SocketFollowsTick(ttl, front, l, read, marked, first);
    }
  }

  /** The whole websocket is the cached command of its device, if there is one, and then what the ticker writes. */
  lemma {:induction false} SocketIsCacheThenTicker(ttl: int, before: seq<Action>, l: int, device: string, org: string,
                                                   moves: seq<Move>)
    requires device != "" && MovesApart(moves, l) && forall i | 0 <= i < |before| :: Apart(before[i], l)
    ensures var run := Connected(before, l, device, org, moves);
            Socket(ttl, run, l) == FirstWritten(Cached(ttl, before), device) + Written(ttl, run, l)
    decreases |moves|
  {
    ConnectedStep(before, l, device, org, moves);
    if moves == [] {
      SocketStarts(ttl, before, l, device, org);
    } else {
      var n := |moves| - 1;
      SocketIsCacheThenTicker(ttl, before, l, device, org, moves[..n]);
      SocketFollowsMove(ttl, Connected(before, l, device, org, moves[..n]), l, moves[n],
                        FirstWritten(Cached(ttl, before), device));
    }
  }

  /** What a websocket may live through: fresh ids, a clock that does not run backwards, no result that reports
      'pending', ticks that nothing comes between and whose updates go through, and anything at all between them. */
  ghost predicate Orderly(before: seq<Action>, l: int, device: string, org: string, moves: seq<Move>) {
    var run := Connected(before, l, device, org, moves);
    FreshIds(run) && SendsClocked(run) && NoPendingReports(run) && MovesApart(moves, l) && AllMarked(moves)
  }

  /** Connecting with nothing pending, or nothing cached, starts in order. */
  lemma StartsInOrder(ttl: int, whole: seq<Action>, before: seq<Action>, l: int, device: string, org: string)
    requires FreshIds(whole) && before + [Listen(l, device, org)] <= whole && device != ""
    requires forall i | 0 <= i < |before| :: Apart(before[i], l)
    requires device in Cached(ttl, before) ==> Oldest(After(ttl, before).t.commands, device, org).None?
    ensures Delivering(whole, |before| + 1, true, After(ttl, before + [Listen(l, device, org)]), l,
                       FirstWritten(Cached(ttl, before), device))
  {
    StartsDelivering(ttl, before, l, device, org);
    assert whole[..|before|] == before;
    CacheHoldsLatest(ttl, whole, |before|);
    OldestIsEarliest(After(ttl, before).t.commands, device, org);
  }

  lemma OneTick(before: seq<Action>, l: int, device: string, org: string)
    ensures Connected(before, l, device, org, [TickOf(true, true)])
            == before + [Listen(l, device, org)] + TickActions(l, true, true)
  {
    var moves := [TickOf(true, true)];
    assert moves[..0] == [] && Flatten(moves, l) == [] + TickActions(l, true, true);
  }

  lemma OneTickOrderly(before: seq<Action>, l: int, device: string, org: string)
    requires FreshIds(before) && SendsClocked(before) && NoPendingReports(before)
    ensures Orderly(before, l, device, org, [TickOf(true, true)])
  {
    var more := [Listen(l, device, org)] + TickActions(l, true, true);
    OneTick(before, l, device, org);
    assert before + [Listen(l, device, org)] + TickActions(l, true, true) == before + more;
    QuietIsFresh(before, more);
  }

  lemma OneTickWrites(ttl: int, before: seq<Action>, l: int, device: string, org: string)
    requires device != "" && forall i | 0 <= i < |before| :: Apart(before[i], l)
    requires device in Cached(ttl, before) && Oldest(After(ttl, before).t.commands, device, org).Some?
    ensures Socket(ttl, Connected(before, l, device, org, [TickOf(true, true)]), l)
            == [Cached(ttl, before)[device], Oldest(After(ttl, before).t.commands, device, org).value.id]
  {
    OneTick(before, l, device, org);
    SocketIsCacheThenTicker(ttl, before, l, device, org, [TickOf(true, true)]);
    StartsDelivering(ttl, before, l, device, org);
    TickIsAtomic(ttl, before + [Listen(l, device, org)], l, true, true);
  }

  /** With a command cached and one pending, the first tick writes a command sent no later than the cached one. */
  lemma FirstTickOutOfOrder(ttl: int, before: seq<Action>, l: int, device: string, org: string)
    requires FreshIds(before) && SendsClocked(before) && NoPendingReports(before) && device != ""
    requires forall i | 0 <= i < |before| :: Apart(before[i], l)
    requires device in Cached(ttl, before) && Oldest(After(ttl, before).t.commands, device, org).Some?
    ensures var run := Connected(before, l, device, org, [TickOf(true, true)]);
            Orderly(before, l, device, org, [TickOf(true, true)]) && !Follow(run, true, Socket(ttl, run, l))
  {
    var run := Connected(before, l, device, org, [TickOf(true, true)]);
    OneTickOrderly(before, l, device, org);
    OneTickWrites(ttl, before, l, device, org);
    OneTick(before, l, device, org);
    assert run[..|before|] == before;
    CacheHoldsLatest(ttl, run, |before|);
    var socket := Socket(ttl, run, l);
    assert !Precedes(run, true, socket[0], socket[1]);
  }

  /** The exact condition for the order of the whole websocket: in everything it may live through it is written
      commands strictly in the order they were sent if and only if, when it connects, no command is cached for its
      device or none is pending for it. */
  lemma SocketInOrderExactly(ttl: int, before: seq<Action>, l: int, device: string, org: string)
    requires FreshIds(before) && SendsClocked(before) && NoPendingReports(before) && device != ""
    requires forall i | 0 <= i < |before| :: Apart(before[i], l)
    ensures (forall moves {:trigger Connected(before, l, device, org, moves)} |
               Orderly(before, l, device, org, moves) ::
               var run := Connected(before, l, device, org, moves);
               Follow(run, true, Socket(ttl, run, l)))
            <==> (device in Cached(ttl, before) ==> Oldest(After(ttl, before).t.commands, device, org).None?)
  {
    if device in Cached(ttl, before) ==> Oldest(After(ttl, before).t.commands, device, org).None? {
      forall moves {:trigger Connected(before, l, device, org, moves)} | Orderly(before, l, device, org, moves)
        ensures var run := Connected(before, l, device, org, moves); Follow(run, true, Socket(ttl, run, l))
      {
        var run, first := Connected(before, l, device, org, moves), FirstWritten(Cached(ttl, before), device);
        StartsInOrder(ttl, run, before, l, device, org);
        KeepsDelivering(ttl, run, before, l, device, org, moves, true, first);
        SocketIsCacheThenTicker(ttl, before, l, device, org, moves);
      }
    } else {
      FirstTickOutOfOrder(ttl, before, l, device, org);
    }
  }

  // ---------- After the end of a connection

  lemma GoneStep(ttl: int, front: seq<Action>, a: Action, l: int)
    requires l !in After(ttl, front).listeners && !(a.Listen? && a.l == l)
    ensures l !in After(ttl, front + [a]).listeners && Socket(ttl, front + [a], l) == Socket(ttl, front, l)
  {
    AfterNext(ttl, front, a);
    SocketNext(ttl, front, a, l);
  }

  /** Once its connection has ended a listener is written nothing more, unless it connects again. */
  lemma {:induction false} SilentAfterHangup(ttl: int, run: seq<Action>, l: int, more: seq<Action>)
    requires forall i | 0 <= i < |more| :: !(more[i].Listen? && more[i].l == l)
    ensures var whole := run + [Hangup(l)] + more;
            l !in After(ttl, whole).listeners && Socket(ttl, whole, l) == Socket(ttl, run, l)
    decreases |more|
  {
    var whole := run + [Hangup(l)] + more;
    if more == [] {
      assert whole == run + [Hangup(l)];
      AfterNext(ttl, run, Hangup(l));
      SocketNext(ttl, run, Hangup(l), l);
    } else {
      var n := |more| - 1;
      SilentAfterHangup(ttl, run, l, more[..n]);
      assert whole == run + [Hangup(l)] + more[..n] + [more[n]];
      GoneStep(ttl, run + [Hangup(l)] + more[..n], more[n], l);
    }
  }

  // ---------- Draining

  function Waits(device: string, org: string): Command -> nat {
    (c: Command) => if PendingFor(c, device, org) then 1 else 0
  }

  function PendingCount(rows: seq<Command>, device: string, org: string): nat {
    Sum(Waits(device, org), rows)
  }

  function Delivered(c: Command, device: string, org: string): Command {
    if PendingFor(c, device, org) then c.(status := "delivered") else c
  }

  /** The table with every pending command of the listener delivered and nothing else changed. */
  ghost predicate AllDelivered(rows: seq<Command>, rows': seq<Command>, device: string, org: string) {
    |rows'| == |rows| && forall i | 0 <= i < |rows| :: rows'[i] == Delivered(rows[i], device, org)
  }

  function Ticks(rows: seq<Command>, device: string, org: string, k: nat): seq<Command>
    decreases k
  {
    if k == 0 then rows else Ticks(Tick(rows, device, org), device, org, k - 1)
  }

  lemma {:induction false} OldestExists(rows: seq<Command>, device: string, org: string)
    ensures Oldest(rows, device, org).None? <==> forall i | 0 <= i < |rows| :: !PendingFor(rows[i], device, org)
  {
    if rows != [] { OldestExists(rows[..|rows| - 1], device, org); }
  }

  lemma SomeOldest(rows: seq<Command>, device: string, org: string)
    requires PendingCount(rows, device, org) > 0
    ensures Oldest(rows, device, org).Some?
  {
    OldestExists(rows, device, org);
    if Oldest(rows, device, org).None? {
      SumZero(Waits(device, org), rows);
    }
  }

  lemma {:induction false} MarkAbsent(rows: seq<Command>, id: string)
    requires id !in Ids(rows)
    ensures Mark(rows, id) == rows
  {
    if rows != [] { MarkAbsent(rows[1..], id); }
  }

  lemma {:induction false} MarkUnique(rows: seq<Command>, p: nat)
    requires Distinct(rows) && p < |rows|
    ensures Mark(rows, rows[p].id) == rows[p := rows[p].(status := "delivered")]
  {
    if p == 0 {
      MarkAbsent(rows[1..], rows[0].id);
    } else {
      var rest, c := rows[1..], rows[p];
      IdListed(rest, c);
      MarkUnique(rest, p - 1);
      assert rows[p := c.(status := "delivered")] == [rows[0]] + rest[p - 1 := c.(status := "delivered")];
    }
  }

  /** One tick delivers one pending command, if there is one, and changes nothing else. */
  lemma TickDeliversOne(rows: seq<Command>, device: string, org: string) returns (p: nat)
    requires Distinct(rows) && PendingCount(rows, device, org) > 0
    ensures p < |rows| && PendingFor(rows[p], device, org)
    ensures Tick(rows, device, org) == rows[p := rows[p].(status := "delivered")]
    ensures Distinct(Tick(rows, device, org))
    ensures PendingCount(Tick(rows, device, org), device, org) == PendingCount(rows, device, org) - 1
  {
    SomeOldest(rows, device, org);
    var c := Oldest(rows, device, org).value;
    p :| 0 <= p < |rows| && rows[p] == c;
    MarkUnique(rows, p);
    UpdateIds(rows, c.id, "", "", "", 0);
    SumUpdate(Waits(device, org), rows, p, c.(status := "delivered"));
  }

  lemma NothingWaits(rows: seq<Command>, device: string, org: string)
    requires PendingCount(rows, device, org) == 0
    ensures AllDelivered(rows, rows, device, org)
  {
    forall i | 0 <= i < |rows| ensures !PendingFor(rows[i], device, org) {
      SumAtLeast(Waits(device, org), rows, i);
    }
  }

  lemma OneDelivered(rows: seq<Command>, p: nat, end: seq<Command>, device: string, org: string)
    requires p < |rows| && PendingFor(rows[p], device, org)
    requires AllDelivered(rows[p := rows[p].(status := "delivered")], end, device, org)
    ensures AllDelivered(rows, end, device, org)
  {
    var next := rows[p := rows[p].(status := "delivered")];
    forall i | 0 <= i < |rows| ensures end[i] == Delivered(rows[i], device, org) {
      assert end[i] == Delivered(next[i], device, org);
    }
  }

  /** n pending commands drain in exactly n ticks: then each is delivered and nothing else has changed. */
  lemma {:induction false} DrainsInCountTicks(rows: seq<Command>, device: string, org: string)
    requires Distinct(rows)
    ensures AllDelivered(rows, Ticks(rows, device, org, PendingCount(rows, device, org)), device, org)
    decreases PendingCount(rows, device, org)
  {
    var n := PendingCount(rows, device, org);
    if n == 0 {
      NothingWaits(rows, device, org);
    } else {
      var p := TickDeliversOne(rows, device, org);
      var next := Tick(rows, device, org);
      DrainsInCountTicks(next, device, org);
      OneDelivered(rows, p, Ticks(next, device, org, n - 1), device, org);
    }
  }

  function TicksOf(l: int, k: nat): seq<Action> {
    if k == 0 then [] else TickActions(l, true, true) + TicksOf(l, k - 1)
  }

  lemma TickOfCommands(w: World, l: int)
    requires IdleListener(w, l)
    ensures var u := w.(t := w.t.(commands := Tick(w.t.commands, w.listeners[l].device, w.listeners[l].org)));
            AfterTick(w, l, true, true) == u && IdleListener(u, l)
  {
  }

  function TicksIn(w: World, l: int, k: nat): World
    requires l in w.listeners
  {
    w.(t := w.t.(commands := Ticks(w.t.commands, w.listeners[l].device, w.listeners[l].org, k)))
  }

  lemma TicksInStep(w: World, l: int, k: nat)
    requires IdleListener(w, l) && k > 0
    ensures var u := AfterTick(w, l, true, true); IdleListener(u, l) && TicksIn(w, l, k) == TicksIn(u, l, k - 1)
  {
    TickOfCommands(w, l);
  }

  lemma NoTicks(w: World, l: int)
    requires l in w.listeners
    ensures TicksOf(l, 0) == [] && TicksIn(w, l, 0) == w
  {
  }

  lemma TicksOfStep(run: seq<Action>, l: int, k: nat)
    requires k > 0
    ensures run + TicksOf(l, k) == run + TickActions(l, true, true) + TicksOf(l, k - 1)
  {
    var first, rest := TickActions(l, true, true), TicksOf(l, k - 1);
    assert TicksOf(l, k) == first + rest;
    assert run + (first + rest) == run + first + rest;
  }

  lemma FirstTick(ttl: int, run: seq<Action>, w: World, l: int, k: nat)
    requires After(ttl, run) == w && IdleListener(w, l) && k > 0
    ensures var u := AfterTick(w, l, true, true);
            After(ttl, run + TickActions(l, true, true)) == u && IdleListener(u, l) &&
            TicksIn(w, l, k) == TicksIn(u, l, k - 1)
  {
    TickIsAtomic(ttl, run, l, true, true);
    TicksInStep(w, l, k);
  }

  lemma {:induction false} TicksRun(ttl: int, run: seq<Action>, w: World, l: int, k: nat)
    requires After(ttl, run) == w && IdleListener(w, l)
    ensures After(ttl, run + TicksOf(l, k)) == TicksIn(w, l, k)
    decreases k
  {
    if k == 0 {
      NoTicks(w, l);
      assert run + [] == run;
    } else {
      FirstTick(ttl, run, w, l, k);
      TicksOfStep(run, l, k);
      TicksRun(ttl, run + TickActions(l, true, true), AfterTick(w, l, true, true), l, k - 1);
    }
  }

  /** In every reachable state, as many ticks of an idle listener as commands are pending for it deliver each of them
      and change nothing else at all. */
  lemma BacklogDrains(ttl: int, run: seq<Action>, l: int)
    requires IdleListener(After(ttl, run), l)
    ensures var w := After(ttl, run);
            var n := PendingCount(w.t.commands, w.listeners[l].device, w.listeners[l].org);
            var u := After(ttl, run + TicksOf(l, n));
            AllDelivered(w.t.commands, u.t.commands, w.listeners[l].device, w.listeners[l].org) &&
            u == w.(t := w.t.(commands := u.t.commands))
  {
    var w := After(ttl, run);
    var device, org := w.listeners[l].device, w.listeners[l].org;
    IdsStayDistinct(ttl, run);
    DrainsInCountTicks(w.t.commands, device, org);
    TicksRun(ttl, run, w, l, PendingCount(w.t.commands, device, org));
  }
}
