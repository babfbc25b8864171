/** Every run of Add, Migrate, Up, Down and DownTo, with any statement or commit failing: the schema is the
    effect of whole scripts only, and _migrations records exactly those in effect
    (internal/db/migrate.go:24-199). */
module RunLaws {
  import opened Text
  import opened Scripts
  import opened Migrations
  import opened UpLaws
  import opened MigrationWalks

  /** A whole script that has been committed. */
  datatype Event =
    | Applied(version: int, name: string, script: string)
    | Reverted(version: int, name: string, script: string)

  datatype Op =
    | CallAdd(more: seq<Migration>)
    | CallMigrate(name: string, script: string, env: Env)
    | CallUp(env: Env)
    | CallDown(env: Env)
    | CallDownTo(target: int, env: Env)

  function Step<S>(sql: Engine<S>, db: Db<S>, ms: seq<Migration>, op: Op): Outcome<S> {
    match op
    case CallAdd(_) => Outcome(db, true)
    case CallMigrate(name, script, env) => AfterMigrate(sql, db, name, script, env)
    case CallUp(env) => AfterUp(sql, db, ms, env)
    case CallDown(env) => AfterDown(sql, db, ms, env)
    case CallDownTo(target, env) => AfterDownTo(sql, db, ms, target, env)
  }

  /** The migrations registered by the first n calls. */
  function Registered(ops: seq<Op>, n: nat): seq<Migration>
    requires n <= |ops|
  {
    if n == 0 then []
    else Registered(ops, n - 1) + if ops[n - 1].CallAdd? then ops[n - 1].more else []
  }

  /** The database after the first n calls, whatever errors they returned. */
  function Run<S>(sql: Engine<S>, db: Db<S>, ops: seq<Op>, n: nat): Db<S>
    requires n <= |ops|
  {
    if n == 0 then db else Step(sql, Run(sql, db, ops, n - 1), Registered(ops, n - 1), ops[n - 1]).db
  }

  // ---------- What a log of whole scripts says

  function Replay<S>(sql: Engine<S>, s: S, log: seq<Event>): Option<S> {
    if log == [] then Some(s)
    else
      match Replay(sql, s, log[..|log| - 1])
      case None => None
      case Some(s') => RunScript(sql, s', log[|log| - 1].script)
  }

  /** The script of (version, name) in effect: applied and not reverted since. */
  function InEffect(log: seq<Event>, version: int, name: string): Option<string> {
    if log == [] then None
    else
      var e := log[|log| - 1];
      if e.version == version && e.name == name then (if e.Applied? then Some(e.script) else None)
      else InEffect(log[..|log| - 1], version, name)
  }

  /** The i-th event applies what is not in effect or reverts what is. */
  ghost predicate InTurn(log: seq<Event>, i: nat)
    requires i < |log|
  {
    log[i].Applied? <==> InEffect(log[..i], log[i].version, log[i].name) == None
  }

  ghost predicate Alternates(log: seq<Event>) {
    forall i {:trigger InTurn(log, i)} | 0 <= i < |log| :: InTurn(log, i)
  }

  ghost predicate HasEffect<S>(sql: Engine<S>, version: int, row: Row, log: seq<Event>) {
    var script := InEffect(log, version, row.name);
    script.Some? && row.checksum == sql.digest(script.value)
  }

  /** No orphan record: each row is a script in effect, under its own checksum. */
  ghost predicate NoOrphan<S>(sql: Engine<S>, rows: Rows, log: seq<Event>) {
    forall v {:trigger HasEffect(sql, v, rows[v], log)} | v in rows :: HasEffect(sql, v, rows[v], log)
  }

  /** No unrecorded effect: each script in effect has its row. */
  ghost predicate NoUnrecorded(rows: Rows, log: seq<Event>) {
    forall v, name | InEffect(log, v, name).Some? :: v in rows && rows[v].name == name
  }

  ghost predicate Explains<S>(sql: Engine<S>, s: S, db: Db<S>, log: seq<Event>) {
    Replay(sql, s, log) == Some(db.schema) && Alternates(log) &&
    NoOrphan(sql, db.rows, log) && NoUnrecorded(db.rows, log)
  }

  /** The event is the Up or Down script of a registered migration, or a script given to Migrate. */
  ghost predicate Sanctioned(e: Event, ms: seq<Migration>, ops: seq<Op>) {
    match e
    case Applied(version, name, script) =>
      (exists i | 0 <= i < |ms| :: version == ms[i].version && name == ms[i].name && script == ms[i].up) ||
      (exists i | 0 <= i < |ops| :: ops[i].CallMigrate? && name == ops[i].name && script == ops[i].script)
    case Reverted(version, name, script) =>
      exists i | 0 <= i < |ms| :: version == ms[i].version && name == ms[i].name && script == ms[i].down
  }

  ghost predicate AllSanctioned(log: seq<Event>, ms: seq<Migration>, ops: seq<Op>) {
    forall i {:trigger Sanctioned(log[i], ms, ops)} | 0 <= i < |log| :: Sanctioned(log[i], ms, ops)
  }

  /** If the i-th event reverts, it runs the Down script of the migration whose own Up script is in effect. */
  ghost predicate Matched(log: seq<Event>, i: nat, ms: seq<Migration>)
    requires i < |log|
  {
    log[i].Reverted? ==>
      exists j | 0 <= j < |ms| ::
        ms[j].version == log[i].version && ms[j].name == log[i].name && ms[j].down == log[i].script &&
        InEffect(log[..i], ms[j].version, ms[j].name) == Some(ms[j].up)
  }

  /** No Down script ever runs for a script it does not belong to. */
  ghost predicate AllMatched(log: seq<Event>, ms: seq<Migration>) {
    forall i {:trigger Matched(log, i, ms)} | 0 <= i < |log| :: Matched(log, i, ms)
  }

  // ---------- When the promise holds

  ghost predicate FreeVersion(ms: seq<Migration>, version: int) {
    forall i | 0 <= i < |ms| :: ms[i].version != version
  }

  ghost predicate FreeName(ms: seq<Migration>, name: string) {
    forall i | 0 <= i < |ms| :: ms[i].name != name
  }

  /** The record (version, name) belongs to a registered migration, or shares neither with any. */
  ghost predicate Sorted(ms: seq<Migration>, version: int, name: string) {
    (exists i | 0 <= i < |ms| :: ms[i].version == version && ms[i].name == name) ||
    (FreeVersion(ms, version) && FreeName(ms, name))
  }

  /** A registered migration with this version and name has this Up script. */
  ghost predicate OwnText(ms: seq<Migration>, version: int, name: string, script: string) {
    forall i | 0 <= i < |ms| && ms[i].version == version && ms[i].name == name :: ms[i].up == script
  }

  /** A call of Migrate finds its name recorded already, or it records the very script of a registered migration under
      that one's version and name, or a version and name that no registered migration has. */
  ghost predicate StaysClear<S>(db: Db<S>, ms: seq<Migration>, op: Op) {
    op.CallMigrate? ==>
      HasName(db.rows, op.name) ||
      (Sorted(ms, NextVersion(db.rows, op.env), op.name) &&
       OwnText(ms, NextVersion(db.rows, op.env), op.name, op.script))
  }

  /** What is in effect under m's version and name, if anything, is its Up script. */
  ghost predicate OwnInEffect(log: seq<Event>, m: Migration) {
    InEffect(log, m.version, m.name).Some? ==> InEffect(log, m.version, m.name) == Some(m.up)
  }

  ghost predicate OwnTexts(log: seq<Event>, ms: seq<Migration>) {
    forall j {:trigger OwnInEffect(log, ms[j])} | 0 <= j < |ms| :: OwnInEffect(log, ms[j])
  }

  ghost predicate AllSorted(ms: seq<Migration>, rows: Rows) {
    forall v {:trigger Sorted(ms, v, rows[v].name)} | v in rows :: Sorted(ms, v, rows[v].name)
  }

  ghost predicate Inv<S>(sql: Engine<S>, s: S, db: Db<S>, log: seq<Event>, ms: seq<Migration>, ops: seq<Op>) {
    Explains(sql, s, db, log) && AllSanctioned(log, ms, ops) && AllMatched(log, ms) &&
    AllSorted(ms, db.rows) && OwnTexts(log, ms)
  }

  // ---------- One commit

  lemma LogGrows<S>(sql: Engine<S>, s: S, log: seq<Event>, e: Event)
    ensures Replay(sql, s, log + [e]) ==
            match Replay(sql, s, log) case None => None case Some(s') => RunScript(sql, s', e.script)
    ensures forall v, name ::
              InEffect(log + [e], v, name) ==
              if e.version == v && e.name == name then (if e.Applied? then Some(e.script) else None)
              else InEffect(log, v, name)
  {
    assert (log + [e])[..|log + [e]| - 1] == log;
  }

  lemma AlternationGrows(log: seq<Event>, e: Event)
    requires Alternates(log) && (e.Applied? <==> InEffect(log, e.version, e.name) == None)
    ensures Alternates(log + [e])
  {
    forall i {:trigger InTurn(log + [e], i)} | 0 <= i < |log + [e]| ensures InTurn(log + [e], i) {
      assert (log + [e])[..i] == log[..i];
      if i < |log| { assert InTurn(log, i); } else { assert log[..i] == log; }
    }
  }

  lemma TextsGrow(log: seq<Event>, e: Event, ms: seq<Migration>)
    requires OwnTexts(log, ms) && (e.Applied? ==> OwnText(ms, e.version, e.name, e.script))
    ensures OwnTexts(log + [e], ms)
  {
    forall j {:trigger OwnInEffect(log + [e], ms[j])} | 0 <= j < |ms| ensures OwnInEffect(log + [e], ms[j]) {
      assert (log + [e])[..|log|] == log && OwnInEffect(log, ms[j]);
    }
  }

  lemma MatchingGrows(log: seq<Event>, e: Event, ms: seq<Migration>)
    requires AllMatched(log, ms)
    requires e.Reverted? ==>
               exists j | 0 <= j < |ms| ::
                 ms[j].version == e.version && ms[j].name == e.name && ms[j].down == e.script &&
                 InEffect(log, ms[j].version, ms[j].name) == Some(ms[j].up)
    ensures AllMatched(log + [e], ms)
  {
    forall i {:trigger Matched(log + [e], i, ms)} | 0 <= i < |log + [e]| ensures Matched(log + [e], i, ms) {
      assert (log + [e])[..i] == log[..i];
      if i < |log| { assert Matched(log, i, ms); } else { assert log[..i] == log; }
    }
  }

  lemma CommitApply<S>(sql: Engine<S>, s: S, db: Db<S>, log: seq<Event>, e: Event, s': S)
    requires Explains(sql, s, db, log) && e.Applied? && RunScript(sql, db.schema, e.script) == Some(s')
    requires e.version !in db.rows
    ensures Explains(sql, s, Db(s', db.rows[e.version := Row(e.name, sql.digest(e.script))]), log + [e])
  {
    LogGrows(sql, s, log, e);
    AlternationGrows(log, e);
    var row := Row(e.name, sql.digest(e.script));
    var rows := db.rows[e.version := row];
    forall v {:trigger HasEffect(sql, v, rows[v], log + [e])} | v in rows
      ensures HasEffect(sql, v, rows[v], log + [e])
    {
      if v != e.version { assert HasEffect(sql, v, db.rows[v], log); }
    }
  }

  lemma CommitRevert<S>(sql: Engine<S>, s: S, db: Db<S>, log: seq<Event>, e: Event, s': S)
    requires Explains(sql, s, db, log) && e.Reverted? && RunScript(sql, db.schema, e.script) == Some(s')
    requires e.version in db.rows && db.rows[e.version].name == e.name
    ensures Explains(sql, s, Db(s', db.rows - {e.version}), log + [e])
  {
    LogGrows(sql, s, log, e);
    assert HasEffect(sql, e.version, db.rows[e.version], log);
    AlternationGrows(log, e);
    var rows := db.rows - {e.version};
    forall v {:trigger HasEffect(sql, v, rows[v], log + [e])} | v in rows
      ensures HasEffect(sql, v, rows[v], log + [e])
    {
      assert HasEffect(sql, v, db.rows[v], log);
    }
  }

  lemma TransactCommits<S>(sql: Engine<S>, db: Db<S>, script: string, write: Option<Rows>, env: TxEnv)
    ensures var r := Transact(sql, db, script, write, env);
            if r.ok
            then write.Some? && RunScript(sql, db.schema, script) == Some(r.db.schema) && r.db.rows == write.value
            else r.db == db
  {
    FaultOnlyStops(sql, db.schema, Statements(script), env.failAt);
  }

  /** The statements of the i-th script lead from the i-th schema to the next. */
  ghost predicate Whole<S(!new)>(sql: Engine<S>, schemas: seq<S>, log: seq<Event>, i: nat)
    requires i < |log| && |schemas| == |log| + 1
  {
    Executes(sql, schemas[i], Statements(log[i].script), -1, schemas[i + 1])
  }

  /** The scripts of the log, each of them whole, lead from schema to schema. */
  ghost predicate AllWhole<S(!new)>(sql: Engine<S>, schemas: seq<S>, log: seq<Event>) {
    |schemas| == |log| + 1 &&
    forall i {:trigger Whole(sql, schemas, log, i)} | 0 <= i < |log| :: Whole(sql, schemas, log, i)
  }

  lemma AllWholeGrows<S(!new)>(sql: Engine<S>, schemas: seq<S>, log: seq<Event>, e: Event, t: S)
    requires AllWhole(sql, schemas, log) && Executes(sql, schemas[|log|], Statements(e.script), -1, t)
    ensures AllWhole(sql, schemas + [t], log + [e])
  {
    var longer, all := schemas + [t], log + [e];
    forall i {:trigger Whole(sql, longer, all, i)} | 0 <= i < |all| ensures Whole(sql, longer, all, i) {
      if i < |log| { assert Whole(sql, schemas, log, i); }
    }
  }

  lemma ReplayEnds<S(!new)>(sql: Engine<S>, s: S, log: seq<Event>)
    requires log != [] && Replay(sql, s, log).Some?
    ensures var before := Replay(sql, s, log[..|log| - 1]);
            before.Some? &&
            Executes(sql, before.value, Statements(log[|log| - 1].script), -1, Replay(sql, s, log).value)
  {
    var before, last := Replay(sql, s, log[..|log| - 1]), log[|log| - 1];
    assert RunScript(sql, before.value, last.script) == Replay(sql, s, log);
    RunAllExactly(sql, before.value, Statements(last.script), -1, Replay(sql, s, log).value);
  }

  lemma {:induction false} ReplayLeavesSchemas<S(!new)>(sql: Engine<S>, s: S, log: seq<Event>) returns (schemas: seq<S>)
    requires Replay(sql, s, log).Some?
    ensures AllWhole(sql, schemas, log) && schemas[0] == s && schemas[|log|] == Replay(sql, s, log).value
  {
    if log == [] {
      schemas := [s];
    } else {
      var front, last := log[..|log| - 1], log[|log| - 1];
      ReplayEnds(sql, s, log);
      schemas := ReplayLeavesSchemas(sql, s, front);
      AllWholeGrows(sql, schemas, front, last, Replay(sql, s, log).value);
      schemas := schemas + [Replay(sql, s, log).value];
      assert front + [last] == log;
    }
  }

  lemma {:induction false} SchemasReplay<S(!new)>(sql: Engine<S>, schemas: seq<S>, log: seq<Event>)
    requires AllWhole(sql, schemas, log)
    ensures Replay(sql, schemas[0], log) == Some(schemas[|log|])
  {
    if log != [] {
      var n := |log| - 1;
      var most, front := schemas[..n + 1], log[..n];
      forall i {:trigger Whole(sql, most, front, i)} | 0 <= i < n ensures Whole(sql, most, front, i) {
        assert Whole(sql, schemas, log, i);
      }
      SchemasReplay(sql, most, front);
      assert Whole(sql, schemas, log, n);
      RunAllExactly(sql, schemas[n], Statements(log[n].script), -1, schemas[n + 1]);
    }
  }

  /** A log replays to a schema exactly when its scripts, each of them whole, lead there one after the other. */
  lemma ReplayExactly<S(!new)>(sql: Engine<S>, s: S, log: seq<Event>, t: S)
    ensures Replay(sql, s, log) == Some(t) <==>
            exists schemas :: AllWhole(sql, schemas, log) && schemas[0] == s && schemas[|log|] == t
  {
    if Replay(sql, s, log) == Some(t) {
      var schemas := ReplayLeavesSchemas(sql, s, log);
    }
    if schemas :| AllWhole(sql, schemas, log) && schemas[0] == s && schemas[|log|] == t {
      SchemasReplay(sql, schemas, log);
    }
  }

  // ---------- Each call

  /** Among sorted rows, a registered name sits under its own version only. */
  lemma NoEvictionWhenSorted(ms: seq<Migration>, rows: Rows, i: nat, row: Row)
    requires DistinctNames(ms) && AllSorted(ms, rows) && i < |ms| && row.name == ms[i].name
    ensures Replace(rows, ms[i].version, row) == rows[ms[i].version := row]
  {
    forall v | v in rows && v != ms[i].version ensures rows[v].name != row.name {
      assert Sorted(ms, v, rows[v].name);
    }
  }

  lemma SortedAfter(ms: seq<Migration>, rows: Rows, version: int, row: Row)
    requires AllSorted(ms, rows) && Sorted(ms, version, row.name)
    ensures AllSorted(ms, rows[version := row])
  {
  }

  lemma SanctionGrows(log: seq<Event>, e: Event, ms: seq<Migration>, ops: seq<Op>)
    requires AllSanctioned(log, ms, ops) && Sanctioned(e, ms, ops)
    ensures AllSanctioned(log + [e], ms, ops)
  {
  }

  /** Committing a sanctioned script under a version and name that keep clear keeps the invariant. */
  lemma ApplyCommits<S>(sql: Engine<S>, s: S, db: Db<S>, log: seq<Event>, ms: seq<Migration>, ops: seq<Op>, e: Event,
                        s': S)
    requires Inv(sql, s, db, log, ms, ops) && e.Applied? && RunScript(sql, db.schema, e.script) == Some(s')
    requires e.version !in db.rows && Sanctioned(e, ms, ops)
    requires Sorted(ms, e.version, e.name) && OwnText(ms, e.version, e.name, e.script)
    ensures Inv(sql, s, Db(s', db.rows[e.version := Row(e.name, sql.digest(e.script))]), log + [e], ms, ops)
  {
    CommitApply(sql, s, db, log, e, s');
    TextsGrow(log, e, ms);
    MatchingGrows(log, e, ms);
    SanctionGrows(log, e, ms, ops);
    SortedAfter(ms, db.rows, e.version, Row(e.name, sql.digest(e.script)));
  }

  lemma ApplyKeeps<S>(sql: Engine<S>, s: S, db: Db<S>, log: seq<Event>, ms: seq<Migration>, ops: seq<Op>, i: nat,
                      env: TxEnv)
      returns (log': seq<Event>)
    requires Inv(sql, s, db, log, ms, ops) && DistinctNames(ms) && i < |ms| && ms[i].version !in db.rows
    ensures var r := AfterApply(sql, db, ms[i], env);
            Inv(sql, s, r.db, log', ms, ops) && db.rows.Keys <= r.db.rows.Keys <= db.rows.Keys + {ms[i].version}
    ensures log <= log'
  {
    var m, row := ms[i], Record(sql, ms[i]);
    var r := AfterApply(sql, db, m, env);
    TransactCommits(sql, db, m.up, Some(Replace(db.rows, m.version, row)), env);
    NoEvictionWhenSorted(ms, db.rows, i, row);
    log' := log;
    if r.ok {
      assert Sorted(ms, m.version, m.name) && OwnText(ms, m.version, m.name, m.up);
      ApplyCommits(sql, s, db, log, ms, ops, Applied(m.version, m.name, m.up), r.db.schema);
      log' := log + [Applied(m.version, m.name, m.up)];
    }
  }

  /** The record under a registered version is that migration's, and its Up script is in effect. */
  lemma OwnEffect<S>(sql: Engine<S>, rows: Rows, log: seq<Event>, ms: seq<Migration>, i: nat)
    requires NoOrphan(sql, rows, log) && AllSorted(ms, rows) && OwnTexts(log, ms) && DistinctVersions(ms)
    requires i < |ms| && ms[i].version in rows
    ensures rows[ms[i].version].name == ms[i].name && InEffect(log, ms[i].version, ms[i].name) == Some(ms[i].up)
  {
    assert Sorted(ms, ms[i].version, rows[ms[i].version].name);
    assert HasEffect(sql, ms[i].version, rows[ms[i].version], log) && OwnInEffect(log, ms[i]);
  }

  lemma RevertKeeps<S>(sql: Engine<S>, s: S, db: Db<S>, log: seq<Event>, ms: seq<Migration>, ops: seq<Op>, i: nat,
                       env: TxEnv)
      returns (log': seq<Event>)
    requires Inv(sql, s, db, log, ms, ops) && DistinctVersions(ms) && i < |ms| && ms[i].version in db.rows
    ensures var r := AfterRevert(sql, db, ms[i], env);
            Inv(sql, s, r.db, log', ms, ops) && db.rows.Keys - {ms[i].version} <= r.db.rows.Keys <= db.rows.Keys
    ensures log <= log'
  {
    var m := ms[i];
    var r := AfterRevert(sql, db, m, env);
    TransactCommits(sql, db, m.down, Some(db.rows - {m.version}), env);
    log' := log;
    if r.ok && m.down != "" {
      var e := Reverted(m.version, m.name, m.down);
      OwnEffect(sql, db.rows, log, ms, i);
      CommitRevert(sql, s, db, log, e, r.db.schema);
      TextsGrow(log, e, ms);
      MatchingGrows(log, e, ms);
      log' := log + [e];
      assert Sanctioned(e, ms, ops);
    }
  }

  /** From position k on, what is recorded now was recorded when Up read the table. */
  ghost predicate LaterRead(ms: seq<Migration>, k: nat, rows: Rows, applied: set<int>)
    requires k <= |ms|
  {
    forall i {:trigger ms[i].version in applied} | k <= i < |ms| ::
      ms[i].version in rows ==> ms[i].version in applied
  }

  lemma AdvanceKeeps<S>(sql: Engine<S>, s: S, before: Outcome<S>, log: seq<Event>, ms: seq<Migration>, ops: seq<Op>,
                        k: nat,
                        applied: set<int>, env: TxEnv) returns (log': seq<Event>)
    requires 0 < k <= |ms| && Inv(sql, s, before.db, log, ms, ops) && DistinctVersions(ms) && DistinctNames(ms)
    requires LaterRead(ms, k - 1, before.db.rows, applied)
    ensures var r := Advance(sql, before, ms[k - 1], applied, env);
            Inv(sql, s, r.db, log', ms, ops) && LaterRead(ms, k, r.db.rows, applied)
    ensures log <= log'
  {
    log' := log;
    if before.ok && ms[k - 1].version !in applied {
      log' := ApplyKeeps(sql, s, before.db, log, ms, ops, k - 1, env);
    }
  }

  lemma {:induction false} UpKeeps<S>(sql: Engine<S>, s: S, db: Db<S>, log: seq<Event>, ms: seq<Migration>,
                                      ops: seq<Op>, k: nat, env: Env)
      returns (log': seq<Event>)
    requires k <= |ms| && Inv(sql, s, db, log, ms, ops) && DistinctVersions(ms) && DistinctNames(ms)
    ensures var r := UpTo(sql, db, ms, k, db.rows.Keys, env);
            Inv(sql, s, r.db, log', ms, ops) && LaterRead(ms, k, r.db.rows, db.rows.Keys)
    ensures log <= log'
  {
    log' := log;
    if k > 0 {
      log' := UpKeeps(sql, s, db, log, ms, ops, k - 1, env);
      log' := AdvanceKeeps(sql, s, UpTo(sql, db, ms, k - 1, db.rows.Keys, env), log', ms, ops, k,
                           db.rows.Keys, env.tx(k - 1));
    }
  }

  /** Below position i, what was recorded when DownTo read the table still is. */
  ghost predicate Unreverted(ms: seq<Migration>, i: nat, applied: set<int>, rows: Rows)
    requires i <= |ms|
  {
    forall q {:trigger ms[q].version in applied} | 0 <= q < i && ms[q].version in applied :: ms[q].version in rows
  }

  lemma StillThere(ms: seq<Migration>, i: nat, applied: set<int>, before: Rows, after: Rows)
    requires i < |ms| && DistinctVersions(ms) && Unreverted(ms, i + 1, applied, before)
    requires before.Keys - {ms[i].version} <= after.Keys
    ensures Unreverted(ms, i, applied, after)
  {
    forall q {:trigger ms[q].version in applied} | 0 <= q < i && ms[q].version in applied
      ensures ms[q].version in after
    {
      assert ms[q].version in before.Keys;
    }
  }

  /** One turn of DownTo: go says whether it gets to the positions below i. */
  lemma DownTurnKeeps<S>(sql: Engine<S>, s: S, db: Db<S>, log: seq<Event>, ms: seq<Migration>, ops: seq<Op>, i: nat,
                         target: int, applied: set<int>, env: Env)
      returns (log': seq<Event>, next: Outcome<S>, go: bool)
    requires i < |ms| && Inv(sql, s, db, log, ms, ops) && DistinctVersions(ms)
    requires Unreverted(ms, i + 1, applied, db.rows)
    ensures DownFrom(sql, db, ms, i + 1, target, applied, env) ==
            if go then DownFrom(sql, next.db, ms, i, target, applied, env) else next
    ensures Inv(sql, s, next.db, log', ms, ops) && log <= log' && (go ==> Unreverted(ms, i, applied, next.db.rows))
  {
    log', next, go := log, Outcome(db, true), ms[i].version !in applied;
    if !go && !(target >= 0 && ms[i].version <= target) {
      log' := RevertKeeps(sql, s, db, log, ms, ops, i, env.tx(i));
      next := AfterRevert(sql, db, ms[i], env.tx(i));
      go := next.ok;
      StillThere(ms, i, applied, db.rows, next.db.rows);
    }
  }

  lemma {:induction false} DownFromKeeps<S>(sql: Engine<S>, s: S, db: Db<S>, log: seq<Event>, ms: seq<Migration>,
                                            ops: seq<Op>, i: nat, target: int, applied: set<int>, env: Env)
      returns (log': seq<Event>)
    requires i <= |ms| && Inv(sql, s, db, log, ms, ops) && DistinctVersions(ms)
    requires Unreverted(ms, i, applied, db.rows)
    ensures Inv(sql, s, DownFrom(sql, db, ms, i, target, applied, env).db, log', ms, ops)
    ensures log <= log'
    decreases i
  {
    log' := log;
    if i > 0 {
      var next, go;
      log', next, go := DownTurnKeeps(sql, s, db, log, ms, ops, i - 1, target, applied, env);
      if go { log' := DownFromKeeps(sql, s, next.db, log', ms, ops, i - 1, target, applied, env); }
    }
  }

  lemma MigrateKeeps<S>(sql: Engine<S>, s: S, db: Db<S>, log: seq<Event>, ms: seq<Migration>, ops: seq<Op>, n: nat)
      returns (log': seq<Event>)
    requires Inv(sql, s, db, log, ms, ops) && n < |ops| && ops[n].CallMigrate? && StaysClear(db, ms, ops[n])
    ensures Inv(sql, s, Step(sql, db, ms, ops[n]).db, log', ms, ops)
    ensures log <= log'
    ensures Step(sql, db, ms, ops[n]).ok && !HasName(db.rows, ops[n].name) ==>
              log' == log + [Applied(NextVersion(db.rows, ops[n].env), ops[n].name, ops[n].script)]
  {
    var name, script, env := ops[n].name, ops[n].script, ops[n].env;
    var version, row := NextVersion(db.rows, env), Row(name, sql.digest(script));
    log' := log;
    if env.ready && !HasName(db.rows, name) {
      var write := Insert(db.rows, version, row);
      var r := Transact(sql, db, script, write, env.tx(0));
      TransactCommits(sql, db, script, write, env.tx(0));
      if r.ok {
        ApplyCommits(sql, s, db, log, ms, ops, Applied(version, name, script), r.db.schema);
        log' := log + [Applied(version, name, script)];
      }
    }
  }

  lemma {:induction false} DownFromPrefix<S>(sql: Engine<S>, db: Db<S>, part: seq<Migration>, ms: seq<Migration>,
                                             i: nat, target: int, applied: set<int>, env: Env)
    requires i <= |part| && part <= ms
    ensures DownFrom(sql, db, part, i, target, applied, env) == DownFrom(sql, db, ms, i, target, applied, env)
    decreases i
  {
    if i > 0 {
      DownFromPrefix(sql, db, part, ms, i - 1, target, applied, env);
      DownFromPrefix(sql, AfterRevert(sql, db, ms[i - 1], env.tx(i - 1)).db, part, ms, i - 1, target, applied, env);
    }
  }

  /** A call on the migrations registered so far keeps the invariant of all that are ever registered. */
  lemma StepKeeps<S>(sql: Engine<S>, s: S, db: Db<S>, log: seq<Event>, part: seq<Migration>, ms: seq<Migration>,
                     ops: seq<Op>, op: Op) returns (log': seq<Event>)
    requires Inv(sql, s, db, log, ms, ops) && DistinctVersions(ms) && DistinctNames(ms) && part <= ms
    requires StaysClear(db, ms, op) && (op.CallMigrate? ==> op in ops)
    ensures Inv(sql, s, Step(sql, db, part, op).db, log', ms, ops)
    ensures log <= log'
  {
    log' := log;
    match op {
      case CallAdd(_) =>
      case CallMigrate(_, _, _) =>
        var n :| 0 <= n < |ops| && ops[n] == op;
        log' := MigrateKeeps(sql, s, db, log, ms, ops, n);
      case CallUp(env) =>
        UpToPrefix(sql, db, part, ms, |part|, db.rows.Keys, env);
        if env.ready { log' := UpKeeps(sql, s, db, log, ms, ops, |part|, env); }
      case CallDown(env) =>
        var top := MaxVersion(db.rows.Keys, -1);
        var p := LastWith(part, |part|, top);
        if env.ready && top >= 0 && p >= 0 {
          assert top in db.rows.Keys;
          log' := RevertKeeps(sql, s, db, log, ms, ops, p, env.tx(p));
        }
      case CallDownTo(target, env) =>
        DownFromPrefix(sql, db, part, ms, |part|, target, db.rows.Keys, env);
        if env.ready {
          log' := DownFromKeeps(sql, s, db, log, ms, ops, |part|, target, db.rows.Keys, env);
        }
    }
  }

  lemma {:induction false} RegisteredGrows(ops: seq<Op>, n: nat, m: nat)
    requires n <= m <= |ops|
    ensures Registered(ops, n) <= Registered(ops, m)
  {
    if n < m { RegisteredGrows(ops, n, m - 1); }
  }

  lemma StartIsExplained<S>(sql: Engine<S>, s: S, ms: seq<Migration>, ops: seq<Op>)
    ensures Inv(sql, s, Db(s, map[]), [], ms, ops)
  {
  }

  ghost predicate ClearRun<S>(sql: Engine<S>, db: Db<S>, ops: seq<Op>) {
    forall i {:trigger Run(sql, db, ops, i)} | 0 <= i < |ops| ::
      StaysClear(Run(sql, db, ops, i), Registered(ops, |ops|), ops[i])
  }

  lemma {:induction false} RunKeeps<S>(sql: Engine<S>, s: S, db: Db<S>, ops: seq<Op>, n: nat) returns (log: seq<Event>)
    requires var ms := Registered(ops, |ops|);
             n <= |ops| && DistinctVersions(ms) && DistinctNames(ms) && ClearRun(sql, db, ops) &&
             Inv(sql, s, db, [], ms, ops)
    ensures Inv(sql, s, Run(sql, db, ops, n), log, Registered(ops, |ops|), ops)
  {
    if n == 0 {
      log := [];
    } else {
      log := RunKeeps(sql, s, db, ops, n - 1);
      RegisteredGrows(ops, n - 1, |ops|);
      var part, ms := Registered(ops, n - 1), Registered(ops, |ops|);
      log := StepKeeps(sql, s, Run(sql, db, ops, n - 1), log, part, ms, ops, ops[n - 1]);
    }
  }

  /** In every run from an empty record, with migrations added at any point, if all names and versions ever registered
      are distinct and Migrate stays clear of them, some log of whole, sanctioned, alternating scripts replays to the
      schema, no Down script in it runs for a script it does not belong to, and _migrations holds exactly the scripts
      that the log leaves in effect. */
  lemma RunsAreExplained<S>(sql: Engine<S>, s: S, ops: seq<Op>, n: nat) returns (log: seq<Event>)
    requires n <= |ops| && ClearRun(sql, Db(s, map[]), ops)
    requires DistinctVersions(Registered(ops, |ops|)) && DistinctNames(Registered(ops, |ops|))
    ensures Explains(sql, s, Run(sql, Db(s, map[]), ops, n), log)
    ensures AllSanctioned(log, Registered(ops, |ops|), ops) && AllMatched(log, Registered(ops, |ops|))
  {
    StartIsExplained(sql, s, Registered(ops, |ops|), ops);
    log := RunKeeps(sql, s, Db(s, map[]), ops, n);
  }

  // ---------- Why Migrate has to stay clear

  function Append(s: seq<string>, stmt: string): Option<seq<string>> {
    Some(s + [stmt])
  }

  function Verbatim(text: string): string {
    text
  }

  const LOGGING: Engine<seq<string>> := Engine(Append, Verbatim)

  lemma RunsOneStatement(s: seq<string>, stmt: string)
    requires Tidy(stmt)
    ensures RunAll(LOGGING, s, Statements(stmt), -1) == Some(s + [stmt])
  {
    StatementsRoundTrip([stmt]);
    assert RunAll(LOGGING, s + [stmt], [stmt][1..], -2) == Some(s + [stmt]);
  }

  lemma GivenTakesVersionOne(name: string, env: Env)
    requires env.ready && env.readMax && env.tx(0) == CALM_TX
    ensures AfterMigrate(LOGGING, Db([], map[]), name, "G", env)
            == Outcome(Db(["G"], map[1 := Row(name, "G")]), true)
  {
    var none: Rows := map[];
    RunsOneStatement([], "G");
    assert none.Keys == {} && NextVersion(none, env) == 1;
    var rows := map[1 := Row(name, "G")];
    assert Insert(none, 1, Row(name, "G")) == Some(none[1 := Row(name, "G")]) == Some(rows);
    assert [] + ["G"] == ["G"];
    assert Transact(LOGGING, Db([], none), "G", Some(rows), CALM_TX) == Outcome(Db(["G"], rows), true);
  }

  lemma DownRunsTheOtherScript(name: string, env: Env)
    requires env.ready && env.tx(0) == CALM_TX
    ensures AfterDown(LOGGING, Db(["G"], map[1 := Row(name, "G")]), [Migration(1, "registered", "U", "D")], env)
            == Outcome(Db(["G", "D"], map[]), true)
  {
    var rows := map[1 := Row(name, "G")];
    RunsOneStatement(["G"], "D");
    assert rows.Keys == {1} && MaxVersion(rows.Keys, -1) == 1;
    var m := Migration(1, "registered", "U", "D");
    assert LastWith([m], 1, 1) == 0;
    assert rows - {1} == map[] && ["G"] + ["D"] == ["G", "D"];
    assert AfterRevert(LOGGING, Db(["G"], rows), m, CALM_TX) == Outcome(Db(["G", "D"], map[]), true);
  }

  /** Migrate hands out the version of a registered migration for another script, under whatever name, the registered
      one included: Up then skips that migration, whose own script is never applied, and Down runs its Down script and
      drops the record of the script that was. */
  lemma SharedVersionLosesARecord(name: string, env: Env)
    requires env.ready && env.readMax && env.tx(0) == CALM_TX
    ensures var ms := [Migration(1, "registered", "U", "D")];
            var given := AfterMigrate(LOGGING, Db([], map[]), name, "G", env);
            given == Outcome(Db(["G"], map[1 := Row(name, "G")]), true) &&
            AfterUp(LOGGING, given.db, ms, env) == given &&
            AfterDown(LOGGING, given.db, ms, env) == Outcome(Db(["G", "D"], map[]), true)
  {
    GivenTakesVersionOne(name, env);
    DownRunsTheOtherScript(name, env);
    var given := Db(["G"], map[1 := Row(name, "G")]);
    UpSkips(LOGGING, given, [Migration(1, "registered", "U", "D")], 1, given.rows.Keys, env);
  }
}
