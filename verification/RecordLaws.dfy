/** The keys of _migrations in every run, and exactly when no call disturbs the record of another
    (internal/db/migrate.go:56-61, 110-114, 134-138, 191, 293). */
module RecordLaws {
  import opened Text
  import opened Scripts
  import opened Migrations
  import opened UpLaws
  import opened DownLaws
  import opened RunLaws

  // ---------- The unique index on names

  lemma TransactNames<S>(sql: Engine<S>, db: Db<S>, script: string, write: Option<Rows>, env: TxEnv)
    requires UniqueNames(db.rows) && (write.Some? ==> UniqueNames(write.value))
    ensures UniqueNames(Transact(sql, db, script, write, env).db.rows)
  {
  }

  lemma {:induction false} UpNames<S>(sql: Engine<S>, db: Db<S>, ms: seq<Migration>, k: nat, applied: set<int>,
                                      env: Env)
    requires k <= |ms| && UniqueNames(db.rows)
    ensures UniqueNames(UpTo(sql, db, ms, k, applied, env).db.rows)
  {
    if k > 0 {
      UpNames(sql, db, ms, k - 1, applied, env);
      var mid, m := UpTo(sql, db, ms, k - 1, applied, env).db, ms[k - 1];
      TransactNames(sql, mid, m.up, Some(Replace(mid.rows, m.version, Record(sql, m))), env.tx(k - 1));
    }
  }

  lemma RevertNames<S>(sql: Engine<S>, db: Db<S>, m: Migration, env: TxEnv)
    requires UniqueNames(db.rows)
    ensures UniqueNames(AfterRevert(sql, db, m, env).db.rows)
  {
    TransactNames(sql, db, m.down, Some(db.rows - {m.version}), env);
  }

  lemma {:induction false} DownNames<S>(sql: Engine<S>, db: Db<S>, ms: seq<Migration>, i: nat, target: int,
                                        applied: set<int>, env: Env)
    requires i <= |ms| && UniqueNames(db.rows)
    ensures UniqueNames(DownFrom(sql, db, ms, i, target, applied, env).db.rows)
    decreases i
  {
    if i > 0 {
      var r := AfterRevert(sql, db, ms[i - 1], env.tx(i - 1));
      RevertNames(sql, db, ms[i - 1], env.tx(i - 1));
      DownNames(sql, db, ms, i - 1, target, applied, env);
      DownNames(sql, r.db, ms, i - 1, target, applied, env);
    }
  }

  lemma StepNames<S>(sql: Engine<S>, db: Db<S>, ms: seq<Migration>, op: Op)
    requires UniqueNames(db.rows)
    ensures UniqueNames(Step(sql, db, ms, op).db.rows)
  {
    match op {
      case CallAdd(_) =>
      case CallMigrate(name, script, env) =>
        var row := Row(name, sql.digest(script));
        TransactNames(sql, db, script, Insert(db.rows, NextVersion(db.rows, env), row), env.tx(0));
      case CallUp(env) =>
        UpNames(sql, db, ms, |ms|, db.rows.Keys, env);
      case CallDown(env) =>
        var p := LastWith(ms, |ms|, MaxVersion(db.rows.Keys, -1));
        if p >= 0 { RevertNames(sql, db, ms[p], env.tx(p)); }
      case CallDownTo(target, env) =>
        DownNames(sql, db, ms, |ms|, target, db.rows.Keys, env);
    }
  }

  /** No run whatsoever records two rows under one name. */
  lemma {:induction false} NamesStayUnique<S>(sql: Engine<S>, s: S, ops: seq<Op>, n: nat)
    requires n <= |ops|
    ensures UniqueNames(Run(sql, Db(s, map[]), ops, n).rows)
  {
    if n > 0 {
      NamesStayUnique(sql, s, ops, n - 1);
      StepNames(sql, Run(sql, Db(s, map[]), ops, n - 1), Registered(ops, n - 1), ops[n - 1]);
    }
  }

  /** The rows that an Up would record clash on a name when a migration to be applied finds its name taken. */
  lemma ClashInRecorded<S>(sql: Engine<S>, rows: Rows, ms: seq<Migration>, i: nat, v: int, name: string)
    requires DistinctVersions(ms) && i < |ms| && ms[i].version !in rows && ms[i].name == name && v != ms[i].version
    requires (v in rows && rows[v].name == name) ||
             (v !in rows && exists j | 0 <= j < |ms| :: ms[j].version == v && ms[j].name == name)
    ensures !UniqueNames(Recorded(sql, rows, ms, |ms|))
  {
    RecordedKeys(sql, rows, ms, |ms|);
    var r := Recorded(sql, rows, ms, |ms|);
    var w := ms[i].version;
    assert w in r && r[w].name == name;
    assert v in r && r[v].name == name;
  }

  /** A successful Up leaves exactly the old records and one per migration that had none, evicting nothing,
      if and only if the names of the migrations it applies are free and distinct. */
  lemma UpRecordsExactly<S>(sql: Engine<S>, db: Db<S>, ms: seq<Migration>, env: Env)
    requires DistinctVersions(ms) && UniqueNames(db.rows) && AfterUp(sql, db, ms, env).ok
    ensures AfterUp(sql, db, ms, env).db.rows == Recorded(sql, db.rows, ms, |ms|) <==> NamesFree(db.rows, ms)
  {
    UpNames(sql, db, ms, |ms|, db.rows.Keys, env);
    if NamesFree(db.rows, ms) {
      UpRecords(sql, db, ms, |ms|, env);
    } else if i :| 0 <= i < |ms| && ms[i].version !in db.rows && HasName(db.rows, ms[i].name) {
      var v :| v in db.rows && db.rows[v].name == ms[i].name;
      ClashInRecorded(sql, db.rows, ms, i, v, ms[i].name);
    } else {
      var i, j :| 0 <= i < j < |ms| && ms[i].version !in db.rows && ms[j].version !in db.rows &&
                  ms[i].name == ms[j].name;
      ClashInRecorded(sql, db.rows, ms, i, ms[j].version, ms[i].name);
    }
  }

  // ---------- Exactly when records are safe from each other

  /** Reverting m can only undo its own Up script, in effect under its own record, and applying it evicts no record. */
  ghost predicate Harmless<S>(sql: Engine<S>, rows: Rows, log: seq<Event>, m: Migration) {
    if m.version in rows then rows[m.version].name == m.name && InEffect(log, m.version, m.name) == Some(m.up)
    else Replace(rows, m.version, Record(sql, m)) == rows[m.version := Record(sql, m)]
  }

  ghost predicate AllHarmless<S>(sql: Engine<S>, rows: Rows, log: seq<Event>, ms: seq<Migration>) {
    forall i {:trigger Harmless(sql, rows, log, ms[i])} | 0 <= i < |ms| :: Harmless(sql, rows, log, ms[i])
  }

  lemma SortedIsHarmless<S>(sql: Engine<S>, rows: Rows, log: seq<Event>, ms: seq<Migration>, i: nat)
    requires DistinctVersions(ms) && DistinctNames(ms) && AllSorted(ms, rows) && i < |ms|
    requires NoOrphan(sql, rows, log) && OwnTexts(log, ms)
    ensures Harmless(sql, rows, log, ms[i])
  {
    if ms[i].version in rows {
      OwnEffect(sql, rows, log, ms, i);
    } else {
      NoEvictionWhenSorted(ms, rows, i, Record(sql, ms[i]));
    }
  }

  lemma EvictsNamesake(rows: Rows, v: int, version: int, row: Row)
    requires v in rows && rows[v].name == row.name && v != version
    ensures Replace(rows, version, row) != rows[version := row]
  {
    assert v !in Replace(rows, version, row);
  }

  lemma HarmlessIsSorted<S>(sql: Engine<S>, rows: Rows, log: seq<Event>, ms: seq<Migration>, v: int)
    requires UniqueNames(rows) && AllHarmless(sql, rows, log, ms) && v in rows
    ensures Sorted(ms, v, rows[v].name)
  {
    if i :| 0 <= i < |ms| && ms[i].version == v {
      assert Harmless(sql, rows, log, ms[i]);
    } else if i :| 0 <= i < |ms| && ms[i].name == rows[v].name {
      assert Harmless(sql, rows, log, ms[i]);
      EvictsNamesake(rows, v, ms[i].version, Record(sql, ms[i]));
    }
  }

  lemma HarmlessIsOwn<S>(sql: Engine<S>, rows: Rows, log: seq<Event>, ms: seq<Migration>)
    requires AllHarmless(sql, rows, log, ms) && NoUnrecorded(rows, log)
    ensures OwnTexts(log, ms)
  {
    forall j {:trigger OwnInEffect(log, ms[j])} | 0 <= j < |ms| ensures OwnInEffect(log, ms[j]) {
      assert Harmless(sql, rows, log, ms[j]);
    }
  }

  /** No registered migration can undo another script, or evict or drop its record, exactly when every record belongs
      to a registered migration, with that one's own Up script in effect, or shares neither version nor name with
      any. */
  lemma HarmlessExactly<S>(sql: Engine<S>, rows: Rows, log: seq<Event>, ms: seq<Migration>)
    requires DistinctVersions(ms) && DistinctNames(ms) && UniqueNames(rows)
    requires NoOrphan(sql, rows, log) && NoUnrecorded(rows, log)
    ensures AllHarmless(sql, rows, log, ms) <==> AllSorted(ms, rows) && OwnTexts(log, ms)
  {
    if AllSorted(ms, rows) && OwnTexts(log, ms) {
      forall i {:trigger Harmless(sql, rows, log, ms[i])} | 0 <= i < |ms| ensures Harmless(sql, rows, log, ms[i]) {
        SortedIsHarmless(sql, rows, log, ms, i);
      }
    }
    if AllHarmless(sql, rows, log, ms) {
      HarmlessIsOwn(sql, rows, log, ms);
      forall v {:trigger Sorted(ms, v, rows[v].name)} | v in rows ensures Sorted(ms, v, rows[v].name) {
        HarmlessIsSorted(sql, rows, log, ms, v);
      }
    }
  }

  /** What a Migrate that records its script does to the two conditions on records and scripts. */
  lemma ClearAfterMigrate<S>(sql: Engine<S>, s: S, rows: Rows, log: seq<Event>, ms: seq<Migration>, e: Event)
    requires e.Applied? && e.version !in rows && AllSorted(ms, rows) && OwnTexts(log, ms) && DistinctVersions(ms)
    ensures var after := rows[e.version := Row(e.name, sql.digest(e.script))];
            AllSorted(ms, after) && OwnTexts(log + [e], ms) <==>
            Sorted(ms, e.version, e.name) && OwnText(ms, e.version, e.name, e.script)
  {
    var row := Row(e.name, sql.digest(e.script));
    var after := rows[e.version := row];
    if Sorted(ms, e.version, e.name) && OwnText(ms, e.version, e.name, e.script) {
      SortedAfter(ms, rows, e.version, row);
      TextsGrow(log, e, ms);
    } else if OwnText(ms, e.version, e.name, e.script) {
      assert after[e.version].name == e.name && e.version in after;
    } else {
      var i :| 0 <= i < |ms| && ms[i].version == e.version && ms[i].name == e.name && ms[i].up != e.script;
      LogGrows(sql, s, log, e);
      assert !OwnInEffect(log + [e], ms[i]);
    }
  }

  lemma MigrateCommits<S>(sql: Engine<S>, s: S, db: Db<S>, log: seq<Event>, name: string, script: string, env: Env)
    requires Explains(sql, s, db, log) && AfterMigrate(sql, db, name, script, env).ok && !HasName(db.rows, name)
    ensures var v, after := NextVersion(db.rows, env), AfterMigrate(sql, db, name, script, env).db;
            v !in db.rows && after.rows == db.rows[v := Row(name, sql.digest(script))] &&
            Explains(sql, s, after, log + [Applied(v, name, script)])
  {
    var v, row := NextVersion(db.rows, env), Row(name, sql.digest(script));
    TransactCommits(sql, db, script, Insert(db.rows, v, row), env.tx(0));
    CommitApply(sql, s, db, log, Applied(v, name, script), AfterMigrate(sql, db, name, script, env).db.schema);
  }

  /** A Migrate that records its script leaves everything safe exactly when it stayed clear: a condition on its name,
      its script and MAX(version) that a caller can look up beforehand. */
  lemma StaysClearExactly<S>(sql: Engine<S>, s: S, db: Db<S>, log: seq<Event>, ms: seq<Migration>, ops: seq<Op>,
                             name: string, script: string, env: Env)
    requires DistinctVersions(ms) && DistinctNames(ms) && UniqueNames(db.rows) && Inv(sql, s, db, log, ms, ops)
    requires AfterMigrate(sql, db, name, script, env).ok && !HasName(db.rows, name)
    ensures StaysClear(db, ms, CallMigrate(name, script, env)) <==>
            AllHarmless(sql, AfterMigrate(sql, db, name, script, env).db.rows,
                        log + [Applied(NextVersion(db.rows, env), name, script)], ms)
  {
    var e := Applied(NextVersion(db.rows, env), name, script);
    var after := AfterMigrate(sql, db, name, script, env).db;
    MigrateCommits(sql, s, db, log, name, script, env);
    StepNames(sql, db, ms, CallMigrate(name, script, env));
    ClearAfterMigrate(sql, s, db.rows, log, ms, e);
    HarmlessExactly(sql, after.rows, log + [e], ms);
  }

  // ---------- Exactly when Migrate keeps the log

  /** Some sanctioned continuation of this history explains the database. */
  ghost predicate Accountable<S>(sql: Engine<S>, s: S, db: Db<S>, history: seq<Event>, ms: seq<Migration>,
                                 ops: seq<Op>) {
    exists log :: Explains(sql, s, db, log) && history <= log && AllSanctioned(log, ms, ops) && AllMatched(log, ms)
  }

  /** Whatever is called next, short of another Migrate, is accountable. */
  ghost predicate StaysAccountable<S>(sql: Engine<S>, s: S, db: Db<S>, history: seq<Event>, ms: seq<Migration>,
                                      ops: seq<Op>) {
    forall next: Op {:trigger Step(sql, db, ms, next)} | !next.CallMigrate? ::
      Accountable(sql, s, Step(sql, db, ms, next).db, history, ms, ops)
  }

  ghost predicate AcceptsAll<S(!new)>(sql: Engine<S>) {
    forall s, stmt :: sql.exec(s, stmt).Some?
  }

  lemma {:induction false} AllRuns<S(!new)>(sql: Engine<S>, s: S, stmts: seq<string>, failAt: int)
    requires AcceptsAll(sql) && failAt < 0
    ensures RunAll(sql, s, stmts, failAt).Some?
  {
    if stmts != [] {
      AllRuns(sql, sql.exec(s, stmts[0]).value, stmts[1..], failAt - 1);
    }
  }

  lemma {:induction false} UpGoesThrough<S(!new)>(sql: Engine<S>, db: Db<S>, ms: seq<Migration>, k: nat,
                                                  applied: set<int>)
    requires AcceptsAll(sql) && k <= |ms|
    ensures UpTo(sql, db, ms, k, applied, CALM).ok
  {
    if k > 0 {
      UpGoesThrough(sql, db, ms, k - 1, applied);
      AllRuns(sql, UpTo(sql, db, ms, k - 1, applied, CALM).db.schema, Statements(ms[k - 1].up), -1);
    }
  }

  lemma {:induction false} DownGoesThrough<S(!new)>(sql: Engine<S>, db: Db<S>, ms: seq<Migration>, i: nat, target: int,
                                                    applied: set<int>)
    requires AcceptsAll(sql) && i <= |ms|
    ensures DownFrom(sql, db, ms, i, target, applied, CALM).ok
    decreases i
  {
    if i > 0 {
      AllRuns(sql, db.schema, Statements(ms[i - 1].down), -1);
      DownGoesThrough(sql, db, ms, i - 1, target, applied);
      DownGoesThrough(sql, AfterRevert(sql, db, ms[i - 1], CALM_TX).db, ms, i - 1, target, applied);
    }
  }

  lemma EvictsStep<S>(sql: Engine<S>, before: Outcome<S>, rows: Rows, ms: seq<Migration>, k: nat, env: TxEnv, v: int,
                      i: nat)
    requires 0 < k <= |ms| && i < |ms| && FreeVersion(ms, v) && v in rows
    requires ms[i].version !in rows && ms[i].name == rows[v].name
    requires before.ok ==>
               if k - 1 <= i then v in before.db.rows ==> before.db.rows[v] == rows[v] else v !in before.db.rows
    ensures var r := Advance(sql, before, ms[k - 1], rows.Keys, env);
            r.ok ==> if k <= i then v in r.db.rows ==> r.db.rows[v] == rows[v] else v !in r.db.rows
  {
    assert ms[k - 1].version != v;
  }

  /** A version that no migration has is never written by Up, and evicted once its name is. */
  lemma {:induction false} UpEvicts<S>(sql: Engine<S>, db: Db<S>, ms: seq<Migration>, k: nat, env: Env, v: int, i: nat)
    requires k <= |ms| && i < |ms| && FreeVersion(ms, v) && v in db.rows
    requires ms[i].version !in db.rows && ms[i].name == db.rows[v].name
    ensures var r := UpTo(sql, db, ms, k, db.rows.Keys, env);
            r.ok ==> if k <= i then v in r.db.rows ==> r.db.rows[v] == db.rows[v] else v !in r.db.rows
  {
    if k > 0 {
      UpEvicts(sql, db, ms, k - 1, env, v, i);
      EvictsStep(sql, UpTo(sql, db, ms, k - 1, db.rows.Keys, env), db.rows, ms, k, env.tx(k - 1), v, i);
    }
  }

  lemma PrefixMatched(log: seq<Event>, n: nat, ms: seq<Migration>)
    requires n <= |log| && Alternates(log) && AllMatched(log, ms)
    ensures Alternates(log[..n]) && AllMatched(log[..n], ms)
  {
    forall i {:trigger InTurn(log[..n], i)} | 0 <= i < n ensures InTurn(log[..n], i) {
      assert log[..n][..i] == log[..i] && InTurn(log, i);
    }
    forall i {:trigger Matched(log[..n], i, ms)} | 0 <= i < n ensures Matched(log[..n], i, ms) {
      assert log[..n][..i] == log[..i] && Matched(log, i, ms);
    }
  }

  /** A script that is no migration's own stays in effect: no event that matches can revert or replace it. */
  lemma {:induction false} StaysInEffect(history: seq<Event>, log: seq<Event>, ms: seq<Migration>, v: int, name: string,
                                         script: string)
    requires history <= log && Alternates(log) && AllMatched(log, ms) && InEffect(history, v, name) == Some(script)
    requires forall i | 0 <= i < |ms| && ms[i].version == v && ms[i].name == name :: ms[i].up != script
    ensures InEffect(log, v, name) == Some(script)
  {
    if |log| > |history| {
      var n := |log| - 1;
      PrefixMatched(log, n, ms);
      StaysInEffect(history, log[..n], ms, v, name, script);
      assert InTurn(log, n) && Matched(log, n, ms);
    } else {
      assert log == history;
    }
  }

  lemma Unaccountable<S>(sql: Engine<S>, s: S, db: Db<S>, history: seq<Event>, ms: seq<Migration>, ops: seq<Op>, v: int,
                         name: string, script: string)
    requires InEffect(history, v, name) == Some(script) && v !in db.rows
    requires forall i | 0 <= i < |ms| && ms[i].version == v && ms[i].name == name :: ms[i].up != script
    ensures !Accountable(sql, s, db, history, ms, ops)
  {
    forall log | history <= log && Alternates(log) && AllMatched(log, ms) ensures !Explains(sql, s, db, log) {
      StaysInEffect(history, log, ms, v, name, script);
    }
  }

  /** After an unclear Migrate one more call loses the record: a DownTo if the version is registered, else an Up. */
  lemma UnclearLosesTheRecord<S(!new)>(sql: Engine<S>, db: Db<S>, ms: seq<Migration>, v: int, name: string)
      returns (next: Op)
    requires AcceptsAll(sql) && Ascending(ms) && NonNegative(ms) && AllHaveDown(ms)
    requires v in db.rows && db.rows[v].name == name && !(FreeVersion(ms, v) && FreeName(ms, name))
    requires forall i | 0 <= i < |ms| && ms[i].name == name :: ms[i].version !in db.rows || ms[i].version == v
    ensures !next.CallMigrate? && v !in Step(sql, db, ms, next).db.rows
  {
    if i :| 0 <= i < |ms| && ms[i].version == v {
      next := CallDownTo(v - 1, CALM);
      DownGoesThrough(sql, db, ms, |ms|, v - 1, db.rows.Keys);
      DownFromDrops(sql, db, ms, |ms|, v - 1, db.rows.Keys, CALM, i);
    } else {
      var i :| 0 <= i < |ms| && ms[i].name == name;
      next := CallUp(CALM);
      UpGoesThrough(sql, db, ms, |ms|, db.rows.Keys);
      UpEvicts(sql, db, ms, |ms|, CALM, v, i);
    }
  }

  lemma ClearIsExplained<S>(sql: Engine<S>, s: S, db: Db<S>, log: seq<Event>, ms: seq<Migration>, ops: seq<Op>,
                            name: string, script: string, env: Env)
    requires DistinctVersions(ms) && DistinctNames(ms) && StaysClear(db, ms, CallMigrate(name, script, env))
    requires Inv(sql, s, db, log, ms, ops) && CallMigrate(name, script, env) in ops
    requires AfterMigrate(sql, db, name, script, env).ok && !HasName(db.rows, name)
    ensures var after := AfterMigrate(sql, db, name, script, env).db;
            var history := log + [Applied(NextVersion(db.rows, env), name, script)];
            StaysAccountable(sql, s, after, history, ms, ops)
  {
    var op := CallMigrate(name, script, env);
    var n :| 0 <= n < |ops| && ops[n] == op;
    var after := AfterMigrate(sql, db, name, script, env).db;
    var history := MigrateKeeps(sql, s, db, log, ms, ops, n);
    forall next: Op {:trigger Step(sql, after, ms, next)} | !next.CallMigrate?
      ensures Accountable(sql, s, Step(sql, after, ms, next).db, history, ms, ops)
    {
      var log' := StepKeeps(sql, s, after, history, ms, ms, ops, next);
    }
  }

  lemma Unclear(ms: seq<Migration>, v: int, name: string, script: string)
    requires DistinctVersions(ms) && !(Sorted(ms, v, name) && OwnText(ms, v, name, script))
    ensures forall i | 0 <= i < |ms| && ms[i].version == v && ms[i].name == name :: ms[i].up != script
  {
  }

  /** The other half of the run theorem. Take a database that a log explains, an engine that accepts every statement,
      ascending non-negative versions and non-empty Down scripts. After a Migrate that records its script, every next
      call leaves the database explained by a continuation of what happened if and only if that Migrate stayed clear. */
  lemma ExplainedExactly<S(!new)>(sql: Engine<S>, s: S, db: Db<S>, log: seq<Event>, ms: seq<Migration>, ops: seq<Op>,
                                  name: string, script: string, env: Env)
    requires AcceptsAll(sql) && Ascending(ms) && NonNegative(ms) && AllHaveDown(ms) && DistinctNames(ms)
    requires Inv(sql, s, db, log, ms, ops) && CallMigrate(name, script, env) in ops
    requires AfterMigrate(sql, db, name, script, env).ok && !HasName(db.rows, name)
    ensures var after := AfterMigrate(sql, db, name, script, env).db;
            var history := log + [Applied(NextVersion(db.rows, env), name, script)];
            StaysClear(db, ms, CallMigrate(name, script, env)) <==> StaysAccountable(sql, s, after, history, ms, ops)
  {
    var v := NextVersion(db.rows, env);
    var after := AfterMigrate(sql, db, name, script, env).db;
    MigrateCommits(sql, s, db, log, name, script, env);
    if Sorted(ms, v, name) && OwnText(ms, v, name, script) {
      ClearIsExplained(sql, s, db, log, ms, ops, name, script, env);
    } else {
      forall i | 0 <= i < |ms| && ms[i].name == name ensures ms[i].version !in after.rows || ms[i].version == v {
        SortedIsHarmless(sql, db.rows, log, ms, i);
      }
      var next := UnclearLosesTheRecord(sql, after, ms, v, name);
      LogGrows(sql, s, log, Applied(v, name, script));
      Unclear(ms, v, name, script);
      Unaccountable(sql, s, Step(sql, after, ms, next).db, log + [Applied(v, name, script)], ms, ops, v, name, script);
    }
  }

  // ---------- Names used twice

  const NAMESAKES := [Migration(1, "a", "U", ""), Migration(2, "a", "V", "")]

  lemma LoggingAdvances(s: seq<string>, rows: Rows, m: Migration, applied: set<int>)
    requires Tidy(m.up) && m.version !in applied
    ensures Advance(LOGGING, Outcome(Db(s, rows), true), m, applied, CALM_TX)
            == Outcome(Db(s + [m.up], Replace(rows, m.version, Row(m.name, m.up))), true)
  {
    RunsOneStatement(s, m.up);
  }

  lemma TurnsOfUp<S>(sql: Engine<S>, db: Db<S>, mid: Outcome<S>, end: Outcome<S>, ms: seq<Migration>, applied: set<int>)
    requires |ms| == 2 && applied == db.rows.Keys
    requires Advance(sql, Outcome(db, true), ms[0], applied, CALM_TX) == mid
    requires Advance(sql, mid, ms[1], applied, CALM_TX) == end
    ensures AfterUp(sql, db, ms, CALM) == end
  {
    assert CALM.tx(0) == CALM.tx(1) == CALM_TX;
    assert UpTo(sql, db, ms, 0, applied, CALM) == Outcome(db, true);
    assert UpTo(sql, db, ms, 1, applied, CALM) == mid;
  }

  lemma FirstTurn()
    ensures Advance(LOGGING, Outcome(Db([], map[]), true), NAMESAKES[0], {}, CALM_TX)
            == Outcome(Db(["U"], map[1 := Row("a", "U")]), true)
  {
    var none: Rows := map[];
    LoggingAdvances([], none, NAMESAKES[0], {});
    assert [] + ["U"] == ["U"] && Replace(none, 1, Row("a", "U")) == map[1 := Row("a", "U")];
  }

  lemma SecondTurn()
    ensures Advance(LOGGING, Outcome(Db(["U"], map[1 := Row("a", "U")]), true), NAMESAKES[1], {}, CALM_TX)
            == Outcome(Db(["U", "V"], map[2 := Row("a", "V")]), true)
  {
    var first := map[1 := Row("a", "U")];
    LoggingAdvances(["U"], first, NAMESAKES[1], {});
    assert ["U"] + ["V"] == ["U", "V"] && Replace(first, 2, Row("a", "V")) == map[2 := Row("a", "V")];
  }

  lemma NamesakesOnce()
    ensures AfterUp(LOGGING, Db([], map[]), NAMESAKES, CALM) == Outcome(Db(["U", "V"], map[2 := Row("a", "V")]), true)
  {
    var none: Rows := map[];
    FirstTurn();
    SecondTurn();
    assert none.Keys == {};
    TurnsOfUp(LOGGING, Db([], none), Outcome(Db(["U"], map[1 := Row("a", "U")]), true),
              Outcome(Db(["U", "V"], map[2 := Row("a", "V")]), true), NAMESAKES, {});
  }

  lemma NamesakesAgain()
    ensures AfterUp(LOGGING, Db(["U", "V"], map[2 := Row("a", "V")]), NAMESAKES, CALM)
            == Outcome(Db(["U", "V", "U"], map[1 := Row("a", "U")]), true)
  {
    var first, second := map[1 := Row("a", "U")], map[2 := Row("a", "V")];
    LoggingAdvances(["U", "V"], second, NAMESAKES[0], {2});
    assert ["U", "V"] + ["U"] == ["U", "V", "U"] && Replace(second, 1, Row("a", "U")) == first;
    var end := Outcome(Db(["U", "V", "U"], first), true);
    TurnsOfUp(LOGGING, Db(["U", "V"], second), end, end, NAMESAKES, {2});
  }

  /** Two migrations under one name: the record of the first is evicted by the second, so the next Up applies it
      again. */
  lemma RepeatedNameRunsTwice()
    ensures var once := AfterUp(LOGGING, Db([], map[]), NAMESAKES, CALM);
            once == Outcome(Db(["U", "V"], map[2 := Row("a", "V")]), true) &&
            AfterUp(LOGGING, once.db, NAMESAKES, CALM) == Outcome(Db(["U", "V", "U"], map[1 := Row("a", "U")]), true)
  {
    NamesakesOnce();
    NamesakesAgain();
  }
}
