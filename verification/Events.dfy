/** The event hub: filtered publish and removals left to goroutines (modules/events/module.go). */
module Events {
  import opened Text

  type Conn = int

  /** subscriber.events: nil lets every event through. */
  type Interest = Option<set<string>>

  predicate Wants(events: Interest, eventType: string) {
    events.None? || eventType in events.value
  }

  // ---------- The events parameter

  function NonEmpty(parts: seq<string>): seq<string> {
    if parts == [] then []
    else (if parts[0] == "" then [] else [parts[0]]) + NonEmpty(parts[1..])
  }

  /** What the scanner returns; a slice that was never appended to is nil. */
  function EventTypes(raw: string): Option<seq<string>> {
    var types := NonEmpty(Split(raw, ','));
    if types == [] then None else Some(types)
  }

  function InterestIn(types: Option<seq<string>>): Interest {
    if types.None? then None else Some(set t | t in types.value)
  }

  lemma {:induction false} NonEmptyConcat(p: seq<string>, q: seq<string>)
    ensures NonEmpty(p + q) == NonEmpty(p) + NonEmpty(q)
  {
    if p == [] {
      assert p + q == q;
    } else {
      assert (p + q)[1..] == p[1..] + q;
      NonEmptyConcat(p[1..], q);
    }
  }

  /** The list that a nil or non-nil slice holds. */
  function Listed(types: Option<seq<string>>): seq<string> {
    if types.None? then [] else types.value
  }

  /** A query without a comma names itself, or nothing if it is empty; at a comma the types before it are followed by
      those after it; and an empty list is always nil. So the types are the non-empty segments, each of them, in
      order. */
  lemma TypesInOrder(a: string, b: string)
    ensures Free(a, ',') ==> EventTypes(a) == if a == "" then None else Some([a])
    ensures Listed(EventTypes(a + "," + b)) == Listed(EventTypes(a)) + Listed(EventTypes(b))
    ensures EventTypes(a) != Some([])
  {
    SplitConcat(a, b, ',');
    NonEmptyConcat(Split(a, ','), Split(b, ','));
    if Free(a, ',') {
      SplitFree(a, ',');
      assert NonEmpty([a]) == (if a == "" then [] else [a]) + NonEmpty([a][1..]);
    }
  }

  lemma {:induction false} NonEmptyMembers(parts: seq<string>, e: string)
    ensures e in NonEmpty(parts) <==> e != "" && e in parts
  {
    if parts != [] {
      NonEmptyMembers(parts[1..], e);
      assert parts == [parts[0]] + parts[1..];
    }
  }

  /** The non-empty segments from start on. */
  ghost function Remaining(raw: string, start: nat): seq<string> {
    if start <= |raw| then NonEmpty(Split(raw[start..], ',')) else []
  }

  lemma SegmentEnds(raw: string, start: nat, i: nat)
    requires start <= i <= |raw| && (forall j | start <= j < i :: raw[j] != ',')
    requires i < |raw| ==> raw[i] == ','
    ensures Remaining(raw, start) == (if i > start then [raw[start..i]] else []) + Remaining(raw, i + 1)
  {
    var piece := raw[start..i];
    assert Free(piece, ',');
    SplitFree(piece, ',');
    assert NonEmpty([piece]) == (if piece == "" then [] else [piece]) + NonEmpty([piece][1..]);
    if i < |raw| {
      assert raw[start..] == piece + [','] + raw[i + 1..];
      SplitConcat(piece, raw[i + 1..], ',');
      NonEmptyConcat([piece], Split(raw[i + 1..], ','));
    } else {
      assert raw[start..] == piece;
    }
  }

  lemma FoundGrows(raw: string, start: nat, i: nat, found: seq<string>)
    requires start <= i <= |raw| && (forall j | start <= j < i :: raw[j] != ',')
    requires i < |raw| ==> raw[i] == ','
    ensures found + Remaining(raw, start)
            == (if i > start then found + [raw[start..i]] else found) + Remaining(raw, i + 1)
  {
    SegmentEnds(raw, start, i);
    var rest := Remaining(raw, i + 1);
    if i > start {
      assert found + ([raw[start..i]] + rest) == found + [raw[start..i]] + rest;
    } else {
      assert [] + rest == rest;
    }
  }

  method ParseEventsParam(raw: string) returns (types: Option<seq<string>>)
    ensures types == EventTypes(raw)
  {
    if raw == "" {
      assert NonEmpty([""]) == NonEmpty([""][1..]);
      return None;
    }
    var found: seq<string> := [];
    var start, i := 0, 0;
    ghost var all := NonEmpty(Split(raw, ','));
    assert raw[0..] == raw;
    while i <= |raw|
      invariant 0 <= start <= i <= |raw| + 1
      invariant all == found + Remaining(raw, start)
      invariant forall j | start <= j < i && j < |raw| :: raw[j] != ','
      invariant i > |raw| ==> start > |raw|
    {
      if i == |raw| || raw[i] == ',' {
        FoundGrows(raw, start, i, found);
        if i > start {
          found := found + [raw[start..i]];
        }
        start := i + 1;
      }
      i := i + 1;
    }
    assert all == found + [] == found;
    return if found == [] then None else Some(found);
  }

  ghost predicate AsksFor(raw: string, e: string) {
    var parts := Split(raw, ',');
    (forall part | part in parts :: part == "") || (e != "" && e in parts)
  }

  lemma NoneNonEmpty(parts: seq<string>)
    requires NonEmpty(parts) == []
    ensures forall part | part in parts :: part == ""
  {
    forall part | part in parts ensures part == "" {
      NonEmptyMembers(parts, part);
    }
  }

  /** A connection opened with this query lets an event through exactly when no segment is non-empty, or
      the event is one of the non-empty segments. */
  lemma FilterEndToEnd(raw: string, e: string)
    ensures Wants(InterestIn(EventTypes(raw)), e) <==> AsksFor(raw, e)
  {
    var parts := Split(raw, ',');
    NonEmptyMembers(parts, e);
    if NonEmpty(parts) == [] {
      NoneNonEmpty(parts);
    } else {
      var some := NonEmpty(parts)[0];
      NonEmptyMembers(parts, some);
      assert some in NonEmpty(parts) && some in parts;
    }
  }

  // ---------- The hub

  type Subs = map<Conn, Interest>

  /** The connections that a publication writes to. */
  function Audience(subs: Subs, eventType: string): set<Conn> {
    set c | c in subs && Wants(subs[c], eventType)
  }

  lemma AudienceStep(audience: set<Conn>, broken: set<Conn>, todo: set<Conn>, conn: Conn)
    requires conn in todo
    ensures var rest := todo - {conn};
            multiset(audience - rest) ==
              multiset(audience - todo) + multiset(if conn in audience then {conn} else {}) &&
            multiset((audience - rest) * broken) ==
              multiset((audience - todo) * broken) + multiset(if conn in audience && conn in broken then {conn} else {})
  {
  }

  class Hub {
    var subs: Subs

    constructor ()
      ensures subs == map[]
    {
      subs := map[];
    }

    method Subscribe(conn: Conn, types: Option<seq<string>>)
      modifies this
      ensures subs == old(subs)[conn := InterestIn(types)]
    {
      var events: Interest := None;
      if types.Some? {
        var wanted: set<string> := {};
        for i := 0 to |types.value|
          invariant wanted == set t | t in types.value[..i]
        {
          wanted := wanted + {types.value[i]};
          assert types.value[..i + 1] == types.value[..i] + [types.value[i]];
        }
        assert types.value[..|types.value|] == types.value;
        events := Some(wanted);
      }
      subs := subs[conn := events];
    }

    method Unsubscribe(conn: Conn)
      modifies this
      ensures subs == old(subs) - {conn}
    {
      subs := subs - {conn};
    }

    /** Writes to every interested connection exactly once, in some order; each write that fails leaves a
        removal for a goroutine. broken says on which connections a write fails. */
    method Publish(eventType: string, marshals: bool, broken: set<Conn>)
      returns (written: seq<Conn>, removals: seq<Conn>)
      ensures var audience := if marshals
                              then set c | c in subs && (subs[c].None? || eventType in subs[c].value)
                              else {};
              multiset(written) == multiset(audience) && multiset(removals) == multiset(audience * broken)
    {
      written, removals := [], [];
      if !marshals { return; }
      var todo := subs.Keys;
      var audience := Audience(subs, eventType);
      while todo != {}
        invariant todo <= subs.Keys
        invariant multiset(written) == multiset(audience - todo)
        invariant multiset(removals) == multiset((audience - todo) * broken)
        decreases todo
      {
        assert (forall c :: c !in todo) ==> todo == {};
        var conn :| conn in todo;
        var rest := todo - {conn};
        AudienceStep(audience, broken, todo, conn);
        if Wants(subs[conn], eventType) {
          written := written + [conn];
          if conn in broken {
            removals := removals + [conn];
          }
        }
        todo := rest;
      }
      assert audience - todo == audience;
      ghost var wanting := set c | c in subs && (subs[c].None? || eventType in subs[c].value);
      forall c ensures c in audience <==> c in wanting {
        assert c in audience <==> c in subs && Wants(subs[c], eventType);
      }
      assert audience == wanting;
    }
  }

  // ---------- Runs

  datatype Action =
    | Open(conn: Conn, raw: string)
    | Leave(conn: Conn)
    | Emit(eventType: string, marshals: bool, broken: set<Conn>)
    | RunRemoval(conn: Conn)

  /** The hub and the removals whose goroutines have not run yet. */
  datatype State = State(subs: Subs, deferred: multiset<Conn>)

  /** The connections whose write fails in this publication. */
  function Failing(subs: Subs, a: Action): set<Conn>
    requires a.Emit?
  {
    if a.marshals then Audience(subs, a.eventType) * a.broken else {}
  }

  function Step(s: State, a: Action): State {
    match a
    case Open(conn, raw) => s.(subs := s.subs[conn := InterestIn(EventTypes(raw))])
    case Leave(conn) => s.(subs := s.subs - {conn})
    case Emit(_, _, _) => s.(deferred := s.deferred + multiset(Failing(s.subs, a)))
    case RunRemoval(conn) =>
      if conn in s.deferred then State(s.subs - {conn}, s.deferred - multiset{conn}) else s
  }

  function After(run: seq<Action>): State {
    if run == [] then State(map[], multiset{}) else Step(After(run[..|run| - 1]), run[|run| - 1])
  }

  /** Every connection ever opened, and the query it was opened with. */
  function Queries(run: seq<Action>): map<Conn, string> {
    if run == [] then map[]
    else
      var front, a := Queries(run[..|run| - 1]), run[|run| - 1];
      if a.Open? then front[a.conn := a.raw] else front
  }

  ghost predicate OpensFresh(run: seq<Action>, i: nat)
    requires i < |run|
  {
    run[i].Open? ==> run[i].conn !in Queries(run[..i])
  }

  /** Each connection is opened once: Subscribe is called for a connection that was just upgraded. */
  ghost predicate FreshConns(run: seq<Action>) {
    forall i {:trigger OpensFresh(run, i)} | 0 <= i < |run| :: OpensFresh(run, i)
  }

  /** After its opening at position i, nothing unsubscribes the connection and no publication that its query asks for
      fails on it. */
  ghost predicate EndsAt(run: seq<Action>, i: nat, j: nat)
    requires i < |run| && j < |run| && run[i].Open?
  {
    match run[j]
    case Leave(conn) => conn == run[i].conn
    case Emit(eventType, marshals, broken) => marshals && run[i].conn in broken && AsksFor(run[i].raw, eventType)
    case _ => false
  }

  ghost predicate OpenedAt(run: seq<Action>, conn: Conn, i: nat) {
    i < |run| && run[i].Open? && run[i].conn == conn
  }

  /** The connection was opened and neither unsubscribed nor failed since. */
  ghost predicate IsLive(run: seq<Action>, conn: Conn) {
    exists i: nat :: OpenedAt(run, conn, i) && forall j | i < j < |run| :: !EndsAt(run, i, j)
  }

  /** The same connections, action by action. */
  function StillLive(s: State, live: set<Conn>, a: Action): set<Conn> {
    match a
    case Open(conn, _) => live + {conn}
    case Leave(conn) => live - {conn}
    case Emit(_, _, _) => live - Failing(s.subs, a)
    case RunRemoval(_) => live
  }

  function Live(run: seq<Action>): set<Conn> {
    if run == [] then {}
    else StillLive(After(run[..|run| - 1]), Live(run[..|run| - 1]), run[|run| - 1])
  }

  ghost predicate Consistent(s: State, live: set<Conn>, queries: map<Conn, string>) {
    live <= s.subs.Keys <= queries.Keys &&
    (forall c | c in s.subs :: (c in live || c in s.deferred) && s.subs[c] == InterestIn(EventTypes(queries[c]))) &&
    (forall c | c in s.deferred :: c in queries && c !in live)
  }

  lemma EmitConsistent(s: State, live: set<Conn>, queries: map<Conn, string>, a: Action)
    requires Consistent(s, live, queries) && a.Emit?
    ensures Consistent(Step(s, a), live - Failing(s.subs, a), queries)
  {
    assert Failing(s.subs, a) <= s.subs.Keys;
  }

  lemma RemovalConsistent(s: State, live: set<Conn>, queries: map<Conn, string>, conn: Conn)
    requires Consistent(s, live, queries)
    ensures Consistent(Step(s, RunRemoval(conn)), live, queries)
  {
  }

  lemma StepConsistent(s: State, live: set<Conn>, queries: map<Conn, string>, a: Action)
    requires Consistent(s, live, queries)
    requires a.Open? ==> a.conn !in queries
    ensures Consistent(Step(s, a), StillLive(s, live, a), if a.Open? then queries[a.conn := a.raw] else queries)
  {
    match a
    case Emit(_, _, _) => EmitConsistent(s, live, queries, a);
    case RunRemoval(conn) => RemovalConsistent(s, live, queries, conn);
    case _ =>
  }

  lemma FreshPrefix(run: seq<Action>)
    requires run != [] && FreshConns(run)
    ensures FreshConns(run[..|run| - 1])
  {
    var front := run[..|run| - 1];
    forall i {:trigger OpensFresh(front, i)} | 0 <= i < |front| ensures OpensFresh(front, i) {
      assert OpensFresh(run, i) && front[..i] == run[..i];
    }
  }

  lemma {:induction false} StaysConsistent(run: seq<Action>)
    requires FreshConns(run)
    ensures Consistent(After(run), Live(run), Queries(run))
  {
    if run != [] {
      var n := |run| - 1;
      FreshPrefix(run);
      StaysConsistent(run[..n]);
      assert OpensFresh(run, n);
      StepConsistent(After(run[..n]), Live(run[..n]), Queries(run[..n]), run[n]);
    }
  }

  lemma NothingDeferred(s: State, live: set<Conn>, queries: map<Conn, string>)
    requires Consistent(s, live, queries)
    ensures s.deferred == multiset{} ==> s.subs.Keys == live
  {
    assert forall c | c in s.subs.Keys :: c in live || c in s.deferred;
  }

  lemma {:induction false} QueriedWasOpened(run: seq<Action>, conn: Conn) returns (i: nat)
    requires conn in Queries(run)
    ensures OpenedAt(run, conn, i) && Queries(run)[conn] == run[i].raw
  {
    var n := |run| - 1;
    if run[n].Open? && run[n].conn == conn { i := n; } else { i := QueriedWasOpened(run[..n], conn); }
  }

  lemma {:induction false} OpenedIsQueried(run: seq<Action>, conn: Conn, i: nat)
    requires OpenedAt(run, conn, i)
    ensures conn in Queries(run)
  {
    if i < |run| - 1 { OpenedIsQueried(run[..|run| - 1], conn, i); }
  }

  /** With fresh connections there is one opening only. */
  lemma OpenedOnce(run: seq<Action>, conn: Conn, i: nat, j: nat)
    requires FreshConns(run) && OpenedAt(run, conn, i) && OpenedAt(run, conn, j)
    ensures i == j
  {
    var first, second := if i < j then i else j, if i < j then j else i;
    assert OpensFresh(run, second);
    if first < second { OpenedIsQueried(run[..second], conn, first); }
  }

  /** Whether the last action ends the connection, told from the hub and told from the query. */
  lemma EndsAgrees(run: seq<Action>, conn: Conn, i: nat)
    requires run != [] && FreshConns(run) && OpenedAt(run[..|run| - 1], conn, i)
    requires conn in Live(run[..|run| - 1])
    ensures conn in Live(run) <==> !EndsAt(run, i, |run| - 1)
  {
    var front, a := run[..|run| - 1], run[|run| - 1];
    FreshPrefix(run);
    StaysConsistent(front);
    if a.Emit? {
      var k := QueriedWasOpened(front, conn);
      OpenedOnce(front, conn, i, k);
      FilterEndToEnd(run[i].raw, a.eventType);
    }
  }

  lemma IsLiveStep(run: seq<Action>, conn: Conn, i: nat)
    requires run != [] && FreshConns(run) && OpenedAt(run[..|run| - 1], conn, i)
    ensures IsLive(run, conn) <==> IsLive(run[..|run| - 1], conn) && !EndsAt(run, i, |run| - 1)
  {
    var n := |run| - 1;
    var front := run[..n];
    forall j | i < j < n ensures EndsAt(run, i, j) <==> EndsAt(front, i, j) {}
    assert OpenedAt(run, conn, i);
    if IsLive(run, conn) {
      var k: nat :| OpenedAt(run, conn, k) && forall j | k < j < |run| :: !EndsAt(run, k, j);
      OpenedOnce(run, conn, i, k);
    }
    if IsLive(front, conn) {
      var k: nat :| OpenedAt(front, conn, k) && forall j | k < j < |front| :: !EndsAt(front, k, j);
      assert OpenedAt(run, conn, k);
      OpenedOnce(run, conn, i, k);
    }
  }

  lemma {:induction false} LiveExactly(run: seq<Action>, conn: Conn)
    requires FreshConns(run)
    ensures conn in Live(run) <==> IsLive(run, conn)
  {
    if run != [] {
      var n := |run| - 1;
      var front, a := run[..n], run[n];
      FreshPrefix(run);
      LiveExactly(front, conn);
      StaysConsistent(front);
      if conn in Queries(front) {
        var i := QueriedWasOpened(front, conn);
        IsLiveStep(run, conn, i);
        assert OpensFresh(run, n);
        if conn in Live(front) { EndsAgrees(run, conn, i); }
      } else if a.Open? && a.conn == conn {
        assert OpenedAt(run, conn, n);
      } else {
        forall i: nat ensures !OpenedAt(run, conn, i) {
          if OpenedAt(run, conn, i) { OpenedIsQueried(front, conn, i); }
        }
      }
    }
  }

  /** Once every deferred removal has run, in whatever order, the hub holds exactly the connections that were opened and
      neither unsubscribed since nor failed in a publication that their query asks for; until then it may hold others,
      but misses none. */
  lemma HubHoldsTheLive(run: seq<Action>)
    requires FreshConns(run)
    ensures forall c | IsLive(run, c) :: c in After(run).subs
    ensures After(run).deferred == multiset{} ==> forall c :: c in After(run).subs <==> IsLive(run, c)
  {
    StaysConsistent(run);
    NothingDeferred(After(run), Live(run), Queries(run));
    forall c ensures c in Live(run) <==> IsLive(run, c) { LiveExactly(run, c); }
    forall c ensures c in After(run).subs <==> c in After(run).subs.Keys {}
  }

  /** End to end: at any point of any run, a publication is written to a subscribed connection exactly when
      the query it was opened with asks for the event. */
  lemma DeliveredByQuery(run: seq<Action>, conn: Conn, e: string)
    requires FreshConns(run) && conn in After(run).subs
    ensures conn in Queries(run)
    ensures conn in Audience(After(run).subs, e) <==> AsksFor(Queries(run)[conn], e)
  {
    StaysConsistent(run);
    FilterEndToEnd(Queries(run)[conn], e);
  }
}
