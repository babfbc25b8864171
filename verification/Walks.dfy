/** What Migrate, Up, Down and DownTo do, told statement by statement and row by row: a reading of
    internal/db/migrate.go:24-199 that asks the engine itself and none of the functions of Migrations. */
module MigrationWalks {
  import opened Text
  import opened Scripts
  import opened Migrations

  // ---------- Scripts

  /** The engine accepts the i-th statement and takes the i-th schema to the next. */
  ghost predicate Accepted<S>(sql: Engine<S>, trace: seq<S>, stmts: seq<string>, i: nat)
    requires i < |stmts| && |trace| == |stmts| + 1
  {
    sql.exec(trace[i], stmts[i]) == Some(trace[i + 1])
  }

  ghost predicate Walks<S>(sql: Engine<S>, trace: seq<S>, stmts: seq<string>) {
    |trace| == |stmts| + 1 &&
    forall i {:trigger Accepted(sql, trace, stmts, i)} | 0 <= i < |stmts| :: Accepted(sql, trace, stmts, i)
  }

  /** The statements lead from s to t, each of them accepted, and the environment fails none of them. */
  ghost predicate Executes<S(!new)>(sql: Engine<S>, s: S, stmts: seq<string>, failAt: int, t: S) {
    !(0 <= failAt < |stmts|) && exists trace :: Walks(sql, trace, stmts) && trace[0] == s && trace[|stmts|] == t
  }

  lemma {:induction false} RunLeavesTrace<S>(sql: Engine<S>, s: S, stmts: seq<string>, f: int) returns (trace: seq<S>)
    requires RunAll(sql, s, stmts, f).Some?
    ensures Walks(sql, trace, stmts) && trace[0] == s && trace[|stmts|] == RunAll(sql, s, stmts, f).value
    ensures !(0 <= f < |stmts|)
  {
    if stmts == [] {
      trace := [s];
    } else {
      var rest := RunLeavesTrace(sql, sql.exec(s, stmts[0]).value, stmts[1..], f - 1);
      trace := [s] + rest;
      forall i {:trigger Accepted(sql, trace, stmts, i)} | 0 <= i < |stmts| ensures Accepted(sql, trace, stmts, i) {
        if i > 0 { assert Accepted(sql, rest, stmts[1..], i - 1); }
      }
    }
  }

  lemma {:induction false} TraceRuns<S>(sql: Engine<S>, trace: seq<S>, stmts: seq<string>, f: int)
    requires Walks(sql, trace, stmts) && !(0 <= f < |stmts|)
    ensures RunAll(sql, trace[0], stmts, f) == Some(trace[|stmts|])
  {
    if stmts != [] {
      var rest, later := trace[1..], stmts[1..];
      assert Accepted(sql, trace, stmts, 0);
      forall i {:trigger Accepted(sql, rest, later, i)} | 0 <= i < |later| ensures Accepted(sql, rest, later, i) {
        assert Accepted(sql, trace, stmts, i + 1);
      }
      TraceRuns(sql, rest, later, f - 1);
    }
  }

  /** A script gets from s to t exactly when every one of its statements is accepted in turn on the way. */
  lemma RunAllExactly<S(!new)>(sql: Engine<S>, s: S, stmts: seq<string>, f: int, t: S)
    ensures RunAll(sql, s, stmts, f) == Some(t) <==> Executes(sql, s, stmts, f, t)
  {
    if RunAll(sql, s, stmts, f) == Some(t) {
      var trace := RunLeavesTrace(sql, s, stmts, f);
    }
    if Executes(sql, s, stmts, f, t) {
      var trace :| Walks(sql, trace, stmts) && trace[0] == s && trace[|stmts|] == t;
      TraceRuns(sql, trace, stmts, f);
    }
  }

  lemma ExecutesTwice<S(!new)>(sql: Engine<S>, s: S, stmts: seq<string>, f: int, t: S, u: S)
    requires Executes(sql, s, stmts, f, t) && Executes(sql, s, stmts, f, u)
    ensures t == u
  {
    RunAllExactly(sql, s, stmts, f, t);
    RunAllExactly(sql, s, stmts, f, u);
  }

  // ---------- Transactions

  /** BEGIN, every statement of the script, the write to _migrations and COMMIT go through. */
  ghost predicate Commits<S(!new)>(sql: Engine<S>, s: S, script: string, env: TxEnv, t: S) {
    env.begin && env.record && env.commit && Executes(sql, s, Statements(script), env.failAt, t)
  }

  /** A row under this version, and the others as they were but for those of its name. */
  ghost predicate Replaced(before: Rows, version: int, row: Row, after: Rows) {
    version in after && after[version] == row &&
    forall v | v != version ::
      (v in after <==> v in before && before[v].name != row.name) && (v in after ==> after[v] == before[v])
  }

  ghost predicate Dropped(before: Rows, version: int, after: Rows) {
    forall v :: (v in after <==> v in before && v != version) && (v in after ==> after[v] == before[v])
  }

  /** The migration's Up script and its record go in together. */
  ghost predicate Applies<S(!new)>(sql: Engine<S>, from: Db<S>, m: Migration, env: TxEnv, to: Db<S>) {
    Commits(sql, from.schema, m.up, env, to.schema) &&
    Replaced(from.rows, m.version, Row(m.name, sql.digest(m.up)), to.rows)
  }

  /** The migration's Down script goes in and its record goes out together; without a Down script nothing happens. */
  ghost predicate Reverts<S(!new)>(sql: Engine<S>, from: Db<S>, m: Migration, env: TxEnv, to: Db<S>) {
    if m.down == "" then to == from
    else Commits(sql, from.schema, m.down, env, to.schema) && Dropped(from.rows, m.version, to.rows)
  }

  lemma TransactExactly<S(!new)>(sql: Engine<S>, db: Db<S>, script: string, write: Option<Rows>, env: TxEnv)
    ensures var r := Transact(sql, db, script, write, env);
            if r.ok then write == Some(r.db.rows) && Commits(sql, db.schema, script, env, r.db.schema)
            else r.db == db && (write.None? || forall t :: !Commits(sql, db.schema, script, env, t))
  {
    forall t ensures RunAll(sql, db.schema, Statements(script), env.failAt) == Some(t)
                     <==> Executes(sql, db.schema, Statements(script), env.failAt, t)
    {
      RunAllExactly(sql, db.schema, Statements(script), env.failAt, t);
    }
  }

  /** One migration goes in exactly if its whole transaction does; otherwise nothing changes. */
  lemma ApplyExactly<S(!new)>(sql: Engine<S>, db: Db<S>, m: Migration, env: TxEnv)
    ensures var r := AfterApply(sql, db, m, env);
            if r.ok then Applies(sql, db, m, env, r.db) else r.db == db && forall to :: !Applies(sql, db, m, env, to)
  {
    TransactExactly(sql, db, m.up, Some(Replace(db.rows, m.version, Record(sql, m))), env);
  }

  /** One migration is undone exactly if its whole transaction goes through; otherwise nothing changes. */
  lemma RevertExactly<S(!new)>(sql: Engine<S>, db: Db<S>, m: Migration, env: TxEnv)
    ensures var r := AfterRevert(sql, db, m, env);
            if r.ok then Reverts(sql, db, m, env, r.db) else r.db == db && forall to :: !Reverts(sql, db, m, env, to)
  {
    if m.down != "" { TransactExactly(sql, db, m.down, Some(db.rows - {m.version}), env); }
  }

  lemma ReplacedTwice(before: Rows, version: int, row: Row, after: Rows, after': Rows)
    requires Replaced(before, version, row, after) && Replaced(before, version, row, after')
    ensures after == after'
  {
    forall v ensures v in after.Keys <==> v in after'.Keys {
      if v != version { assert v in after <==> v in before && before[v].name != row.name; }
    }
    assert after.Keys == after'.Keys;
    forall v | v in after ensures after[v] == after'[v] {
      if v != version { assert v in before && before[v].name != row.name; }
    }
  }

  lemma DroppedTwice(before: Rows, version: int, after: Rows, after': Rows)
    requires Dropped(before, version, after) && Dropped(before, version, after')
    ensures after == after'
  {
    forall v ensures v in after.Keys <==> v in after'.Keys {
      assert v in after <==> v in before && v != version;
    }
    assert after.Keys == after'.Keys;
    forall v | v in after ensures after[v] == after'[v] {
      assert v in before && v != version;
    }
  }

  lemma AppliesTwice<S(!new)>(sql: Engine<S>, from: Db<S>, m: Migration, env: TxEnv, to: Db<S>, to': Db<S>)
    requires Applies(sql, from, m, env, to) && Applies(sql, from, m, env, to')
    ensures to == to'
  {
    ExecutesTwice(sql, from.schema, Statements(m.up), env.failAt, to.schema, to'.schema);
    ReplacedTwice(from.rows, m.version, Row(m.name, sql.digest(m.up)), to.rows, to'.rows);
  }

  lemma RevertsTwice<S(!new)>(sql: Engine<S>, from: Db<S>, m: Migration, env: TxEnv, to: Db<S>, to': Db<S>)
    requires Reverts(sql, from, m, env, to) && Reverts(sql, from, m, env, to')
    ensures to == to'
  {
    if m.down != "" {
      ExecutesTwice(sql, from.schema, Statements(m.down), env.failAt, to.schema, to'.schema);
      DroppedTwice(from.rows, m.version, to.rows, to'.rows);
    }
  }

  // ---------- Migrate

  /** One more than the greatest version recorded; 1 if there is none or it could not be read. */
  ghost predicate NextFree(rows: Rows, read: bool, version: int) {
    if !read || rows == map[] then version == 1 else version - 1 in rows && forall v | v in rows :: v < version
  }

  /** The record of name and script is written under the next free version, together with the script. */
  ghost predicate Migrates<S(!new)>(sql: Engine<S>, from: Db<S>, name: string, script: string, env: Env, to: Db<S>) {
    Commits(sql, from.schema, script, env.tx(0), to.schema) &&
    exists v :: NextFree(from.rows, env.readMax, v) && v !in from.rows &&
                to.rows == from.rows[v := Row(name, sql.digest(script))]
  }

  ghost predicate MigrateRan<S(!new)>(sql: Engine<S>, from: Db<S>, name: string, script: string, env: Env, to: Db<S>,
                                      ok: bool) {
    if !env.ready then !ok && to == from
    else if exists v | v in from.rows :: from.rows[v].name == name then ok && to == from
    else if ok then Migrates(sql, from, name, script, env, to)
    else to == from &&
         ((!env.readMax && 1 in from.rows) || forall t :: !Commits(sql, from.schema, script, env.tx(0), t))
  }

  lemma NextVersionIsFree(rows: Rows, env: Env)
    ensures NextFree(rows, env.readMax, NextVersion(rows, env))
    ensures env.readMax ==> NextVersion(rows, env) !in rows
  {
    if rows.Keys == {} { assert rows == map[]; }
  }

  /** Migrate leaves a recorded name alone, and otherwise commits script and record together under the next free
      version exactly if they can be; it fails on nothing else. */
  lemma MigrateExactly<S(!new)>(sql: Engine<S>, db: Db<S>, name: string, script: string, env: Env)
    ensures var r := AfterMigrate(sql, db, name, script, env); MigrateRan(sql, db, name, script, env, r.db, r.ok)
  {
    if env.ready && !HasName(db.rows, name) {
      var v := NextVersion(db.rows, env);
      NextVersionIsFree(db.rows, env);
      TransactExactly(sql, db, script, Insert(db.rows, v, Row(name, sql.digest(script))), env.tx(0));
    }
  }

  /** A fresh name is recorded, above every recorded version, whenever nothing interferes and the engine accepts the
      script. */
  lemma FreshNameIsRecorded<S(!new)>(sql: Engine<S>, db: Db<S>, name: string, script: string, env: Env, t: S)
      returns (v: int)
    requires env.ready && env.readMax && env.tx(0) == CALM_TX && Executes(sql, db.schema, Statements(script), -1, t)
    requires forall w | w in db.rows :: db.rows[w].name != name
    ensures var r := AfterMigrate(sql, db, name, script, env);
            r == Outcome(Db(t, db.rows[v := Row(name, sql.digest(script))]), true)
    ensures forall w | w in db.rows :: w < v
  {
    MigrateExactly(sql, db, name, script, env);
    assert Commits(sql, db.schema, script, env.tx(0), t);
    var to := AfterMigrate(sql, db, name, script, env).db;
    assert Migrates(sql, db, name, script, env, to);
    ExecutesTwice(sql, db.schema, Statements(script), -1, t, to.schema);
    v :| NextFree(db.rows, env.readMax, v) && v !in db.rows && to.rows == db.rows[v := Row(name, sql.digest(script))];
  }

  // ---------- Up

  /** One turn of Up's loop; applied is the set of versions read at the start. */
  ghost predicate UpTurn<S(!new)>(sql: Engine<S>, from: Db<S>, m: Migration, applied: set<int>, env: TxEnv, to: Db<S>) {
    if m.version in applied then to == from else Applies(sql, from, m, env, to)
  }

  ghost predicate UpTurnAt<S(!new)>(sql: Engine<S>, ms: seq<Migration>, applied: set<int>, env: Env,
                                    chain: seq<Db<S>>, k: nat)
    requires k < |ms| && k + 1 < |chain|
  {
    UpTurn(sql, chain[k], ms[k], applied, env.tx(k), chain[k + 1])
  }

  /** The databases from turn to turn, the first migration first. */
  ghost predicate UpWalk<S(!new)>(sql: Engine<S>, ms: seq<Migration>, applied: set<int>, env: Env, chain: seq<Db<S>>) {
    1 <= |chain| <= |ms| + 1 &&
    forall k {:trigger UpTurnAt(sql, ms, applied, env, chain, k)} | 0 <= k < |chain| - 1 ::
      UpTurnAt(sql, ms, applied, env, chain, k)
  }

  /** No database may follow this turn. */
  ghost predicate UpBlocked<S(!new)>(sql: Engine<S>, from: Db<S>, m: Migration, applied: set<int>, env: TxEnv) {
    forall to :: !UpTurn(sql, from, m, applied, env, to)
  }

  /** Up takes the migrations in order, skips those recorded at the start, and stops with an error at the first that
      cannot be applied. */
  ghost predicate UpRan<S(!new)>(sql: Engine<S>, from: Db<S>, ms: seq<Migration>, env: Env, to: Db<S>, ok: bool) {
    if !env.ready then !ok && to == from
    else exists chain :: UpWalk(sql, ms, from.rows.Keys, env, chain) && chain[0] == from && chain[|chain| - 1] == to &&
           UpStops(sql, ms, |ms|, from.rows.Keys, env, chain, ok)
  }

  lemma UpWalkGrows<S(!new)>(sql: Engine<S>, ms: seq<Migration>, applied: set<int>, env: Env, chain: seq<Db<S>>,
                             to: Db<S>)
    requires UpWalk(sql, ms, applied, env, chain) && |chain| <= |ms|
    requires UpTurn(sql, chain[|chain| - 1], ms[|chain| - 1], applied, env.tx(|chain| - 1), to)
    ensures UpWalk(sql, ms, applied, env, chain + [to])
  {
    var longer := chain + [to];
    forall k {:trigger UpTurnAt(sql, ms, applied, env, longer, k)} | 0 <= k < |longer| - 1
      ensures UpTurnAt(sql, ms, applied, env, longer, k)
    {
      if k < |chain| - 1 { assert UpTurnAt(sql, ms, applied, env, chain, k); }
    }
  }

  /** Where a walk over the first k migrations ends. */
  ghost predicate UpStops<S(!new)>(sql: Engine<S>, ms: seq<Migration>, k: nat, applied: set<int>, env: Env,
                                   chain: seq<Db<S>>, ok: bool)
    requires 1 <= |chain| <= k + 1 <= |ms| + 1
  {
    if ok then |chain| == k + 1
    else |chain| <= k && UpBlocked(sql, chain[|chain| - 1], ms[|chain| - 1], applied, env.tx(|chain| - 1))
  }

  /** What one turn makes of an outcome. */
  ghost predicate Turns<S(!new)>(sql: Engine<S>, before: Outcome<S>, m: Migration, applied: set<int>, env: TxEnv,
                                 after: Outcome<S>) {
    if !before.ok then after == before
    else if after.ok then UpTurn(sql, before.db, m, applied, env, after.db)
    else after.db == before.db && UpBlocked(sql, before.db, m, applied, env)
  }

  lemma AdvanceTurns<S(!new)>(sql: Engine<S>, before: Outcome<S>, m: Migration, applied: set<int>, env: TxEnv)
    ensures Turns(sql, before, m, applied, env, Advance(sql, before, m, applied, env))
  {
    ApplyExactly(sql, before.db, m, env);
  }

  /** One more turn after a walk that has come to this outcome. */
  lemma UpWalksOn<S(!new)>(sql: Engine<S>, ms: seq<Migration>, k: nat, applied: set<int>, env: Env, chain: seq<Db<S>>,
                           before: Outcome<S>, after: Outcome<S>) returns (longer: seq<Db<S>>)
    requires 0 < k <= |ms| && UpWalk(sql, ms, applied, env, chain) && |chain| <= k
    requires chain[|chain| - 1] == before.db && UpStops(sql, ms, k - 1, applied, env, chain, before.ok)
    requires Turns(sql, before, ms[k - 1], applied, env.tx(k - 1), after)
    ensures UpWalk(sql, ms, applied, env, longer) && |longer| <= k + 1 && longer[0] == chain[0]
    ensures longer[|longer| - 1] == after.db && UpStops(sql, ms, k, applied, env, longer, after.ok)
  {
    longer := chain;
    if before.ok {
      assert |chain| == k;
      if after.ok {
        assert UpTurn(sql, chain[k - 1], ms[k - 1], applied, env.tx(k - 1), after.db);
        UpWalkGrows(sql, ms, applied, env, chain, after.db);
        longer := chain + [after.db];
      } else {
        assert UpBlocked(sql, chain[k - 1], ms[k - 1], applied, env.tx(k - 1));
      }
    }
  }

  lemma UpToTurns<S(!new)>(sql: Engine<S>, db: Db<S>, ms: seq<Migration>, k: nat, applied: set<int>, env: Env)
    requires 0 < k <= |ms|
    ensures Turns(sql, UpTo(sql, db, ms, k - 1, applied, env), ms[k - 1], applied, env.tx(k - 1),
                  UpTo(sql, db, ms, k, applied, env))
  {
    AdvanceTurns(sql, UpTo(sql, db, ms, k - 1, applied, env), ms[k - 1], applied, env.tx(k - 1));
  }

  lemma {:induction false} UpToWalks<S(!new)>(sql: Engine<S>, db: Db<S>, ms: seq<Migration>, k: nat, applied: set<int>,
                                              env: Env) returns (chain: seq<Db<S>>)
    requires k <= |ms|
    ensures UpWalk(sql, ms, applied, env, chain) && |chain| <= k + 1 && chain[0] == db
    ensures var r := UpTo(sql, db, ms, k, applied, env);
            chain[|chain| - 1] == r.db && UpStops(sql, ms, k, applied, env, chain, r.ok)
  {
    if k == 0 {
      chain := [db];
    } else {
      chain := UpToWalks(sql, db, ms, k - 1, applied, env);
      var before := UpTo(sql, db, ms, k - 1, applied, env);
      UpToTurns(sql, db, ms, k, applied, env);
      chain := UpWalksOn(sql, ms, k, applied, env, chain, before, UpTo(sql, db, ms, k, applied, env));
    }
  }

  lemma {:induction false} SameUpWalk<S(!new)>(sql: Engine<S>, ms: seq<Migration>, applied: set<int>, env: Env,
                                               chain: seq<Db<S>>, chain': seq<Db<S>>, k: nat)
    requires UpWalk(sql, ms, applied, env, chain) && UpWalk(sql, ms, applied, env, chain') && chain[0] == chain'[0]
    requires k < |chain| && k < |chain'|
    ensures chain[k] == chain'[k]
  {
    if k > 0 {
      SameUpWalk(sql, ms, applied, env, chain, chain', k - 1);
      assert UpTurnAt(sql, ms, applied, env, chain, k - 1) && UpTurnAt(sql, ms, applied, env, chain', k - 1);
      if ms[k - 1].version !in applied {
        AppliesTwice(sql, chain[k - 1], ms[k - 1], env.tx(k - 1), chain[k], chain'[k]);
      }
    }
  }

  /** A walk that stops is not the beginning of a longer one. */
  lemma UpWalkEnds<S(!new)>(sql: Engine<S>, ms: seq<Migration>, applied: set<int>, env: Env, chain: seq<Db<S>>,
                            chain': seq<Db<S>>, ok: bool)
    requires UpWalk(sql, ms, applied, env, chain) && UpWalk(sql, ms, applied, env, chain') && chain[0] == chain'[0]
    requires UpStops(sql, ms, |ms|, applied, env, chain, ok)
    ensures |chain'| <= |chain|
  {
    var n := |chain| - 1;
    if |chain'| > |chain| {
      assert UpTurnAt(sql, ms, applied, env, chain', n);
      SameUpWalk(sql, ms, applied, env, chain, chain', n);
    }
  }

  /** In every environment Up does exactly that, and nothing else is an outcome of it. */
  lemma UpExactly<S(!new)>(sql: Engine<S>, db: Db<S>, ms: seq<Migration>, env: Env, to: Db<S>, ok: bool)
    ensures AfterUp(sql, db, ms, env) == Outcome(to, ok) <==> UpRan(sql, db, ms, env, to, ok)
  {
    if env.ready {
      var applied := db.rows.Keys;
      var chain := UpToWalks(sql, db, ms, |ms|, applied, env);
      var r := AfterUp(sql, db, ms, env);
      if UpRan(sql, db, ms, env, to, ok) {
        var chain' :| UpWalk(sql, ms, applied, env, chain') && chain'[0] == db && chain'[|chain'| - 1] == to &&
                      UpStops(sql, ms, |ms|, applied, env, chain', ok);
        UpWalkEnds(sql, ms, applied, env, chain, chain', r.ok);
        UpWalkEnds(sql, ms, applied, env, chain', chain, ok);
        SameUpWalk(sql, ms, applied, env, chain, chain', |chain| - 1);
      }
    }
  }

  // ---------- Down

  /** The last registered migration with the greatest recorded version, which is not negative. */
  ghost predicate OnTop(rows: Rows, ms: seq<Migration>, p: nat) {
    p < |ms| && ms[p].version in rows && ms[p].version >= 0 && (forall v | v in rows :: v <= ms[p].version) &&
    forall q | p < q < |ms| :: ms[q].version != ms[p].version
  }

  /** Down undoes the migration on top if there is one, and succeeds without doing anything if there is none. */
  ghost predicate DownRan<S(!new)>(sql: Engine<S>, from: Db<S>, ms: seq<Migration>, env: Env, to: Db<S>, ok: bool) {
    if !env.ready then !ok && to == from
    else if forall p: nat :: !OnTop(from.rows, ms, p) then ok && to == from
    else exists p: nat :: OnTop(from.rows, ms, p) &&
           if ok then Reverts(sql, from, ms[p], env.tx(p), to)
           else to == from && forall t :: !Reverts(sql, from, ms[p], env.tx(p), t)
  }

  /** In every environment, whatever is recorded and whatever is registered, Down does exactly that. */
  lemma DownExactly<S(!new)>(sql: Engine<S>, db: Db<S>, ms: seq<Migration>, env: Env)
    ensures var r := AfterDown(sql, db, ms, env); DownRan(sql, db, ms, env, r.db, r.ok)
  {
    if env.ready {
      var max := MaxVersion(db.rows.Keys, -1);
      var last := LastWith(ms, |ms|, max);
      forall p: nat | OnTop(db.rows, ms, p) ensures ms[p].version == max {
        assert max in db.rows.Keys;
      }
      if max >= 0 && last >= 0 {
        assert max in db.rows.Keys && OnTop(db.rows, ms, last);
        RevertExactly(sql, db, ms[last], env.tx(last));
      }
    }
  }

  // ---------- DownTo

  /** DownTo stops at a recorded migration at or below a target that is not negative. */
  ghost predicate Lands(m: Migration, target: int, applied: set<int>) {
    m.version in applied && 0 <= target && m.version <= target
  }

  ghost predicate DownTurn<S(!new)>(sql: Engine<S>, from: Db<S>, m: Migration, target: int, applied: set<int>,
                                    env: TxEnv, to: Db<S>) {
    !Lands(m, target, applied) && if m.version in applied then Reverts(sql, from, m, env, to) else to == from
  }

  ghost predicate DownTurnAt<S(!new)>(sql: Engine<S>, ms: seq<Migration>, i: nat, target: int, applied: set<int>,
                                      env: Env, chain: seq<Db<S>>, k: nat)
    requires k < i <= |ms| && k + 1 < |chain|
  {
    DownTurn(sql, chain[k], ms[i - 1 - k], target, applied, env.tx(i - 1 - k), chain[k + 1])
  }

  /** The databases from turn to turn, from the migration at position i - 1 downwards. */
  ghost predicate DownWalk<S(!new)>(sql: Engine<S>, ms: seq<Migration>, i: nat, target: int, applied: set<int>,
                                    env: Env, chain: seq<Db<S>>) {
    1 <= |chain| <= i + 1 <= |ms| + 1 &&
    forall k {:trigger DownTurnAt(sql, ms, i, target, applied, env, chain, k)} | 0 <= k < |chain| - 1 ::
      DownTurnAt(sql, ms, i, target, applied, env, chain, k)
  }

  ghost predicate DownBlocked<S(!new)>(sql: Engine<S>, from: Db<S>, m: Migration, applied: set<int>, env: TxEnv) {
    m.version in applied && forall to :: !Reverts(sql, from, m, env, to)
  }

  ghost predicate DownStops<S(!new)>(sql: Engine<S>, ms: seq<Migration>, i: nat, target: int, applied: set<int>,
                                     env: Env, chain: seq<Db<S>>, ok: bool)
    requires 1 <= |chain| <= i + 1 <= |ms| + 1
  {
    var left := i + 1 - |chain|;
    if ok then left == 0 || Lands(ms[left - 1], target, applied)
    else left > 0 && !Lands(ms[left - 1], target, applied) &&
         DownBlocked(sql, chain[|chain| - 1], ms[left - 1], applied, env.tx(left - 1))
  }

  /** DownTo takes the migrations backwards, skips those not recorded at the start, undoes the others, and stops at the
      target, or with an error at the first that cannot be undone. */
  ghost predicate DownToRan<S(!new)>(sql: Engine<S>, from: Db<S>, ms: seq<Migration>, target: int, env: Env, to: Db<S>,
                                     ok: bool) {
    if !env.ready then !ok && to == from
    else exists chain :: DownWalk(sql, ms, |ms|, target, from.rows.Keys, env, chain) && chain[0] == from &&
           chain[|chain| - 1] == to && DownStops(sql, ms, |ms|, target, from.rows.Keys, env, chain, ok)
  }

  lemma DownWalkGrows<S(!new)>(sql: Engine<S>, from: Db<S>, ms: seq<Migration>, i: nat, target: int, applied: set<int>,
                               env: Env, rest: seq<Db<S>>, ok: bool)
    requires 0 < i <= |ms| && DownWalk(sql, ms, i - 1, target, applied, env, rest)
    requires DownTurn(sql, from, ms[i - 1], target, applied, env.tx(i - 1), rest[0])
    requires DownStops(sql, ms, i - 1, target, applied, env, rest, ok)
    ensures DownWalk(sql, ms, i, target, applied, env, [from] + rest)
    ensures DownStops(sql, ms, i, target, applied, env, [from] + rest, ok)
  {
    var chain := [from] + rest;
    forall k {:trigger DownTurnAt(sql, ms, i, target, applied, env, chain, k)} | 0 <= k < |chain| - 1
      ensures DownTurnAt(sql, ms, i, target, applied, env, chain, k)
    {
      if k > 0 { assert DownTurnAt(sql, ms, i - 1, target, applied, env, rest, k - 1); }
    }
  }

  /** The turn of DownTo at position i - 1, from any database. */
  lemma DownFromTurns<S(!new)>(sql: Engine<S>, db: Db<S>, ms: seq<Migration>, i: nat, target: int, applied: set<int>,
                               env: Env) returns (next: Outcome<S>)
    requires 0 < i <= |ms| && !Lands(ms[i - 1], target, applied)
    ensures DownFrom(sql, db, ms, i, target, applied, env) ==
            if next.ok then DownFrom(sql, next.db, ms, i - 1, target, applied, env) else next
    ensures if next.ok then DownTurn(sql, db, ms[i - 1], target, applied, env.tx(i - 1), next.db)
            else next.db == db && DownBlocked(sql, db, ms[i - 1], applied, env.tx(i - 1))
  {
    next := Outcome(db, true);
    if ms[i - 1].version in applied {
      RevertExactly(sql, db, ms[i - 1], env.tx(i - 1));
      next := AfterRevert(sql, db, ms[i - 1], env.tx(i - 1));
    }
  }

  lemma {:induction false} DownFromWalks<S(!new)>(sql: Engine<S>, db: Db<S>, ms: seq<Migration>, i: nat, target: int,
                                                  applied: set<int>, env: Env) returns (chain: seq<Db<S>>)
    requires i <= |ms|
    ensures DownWalk(sql, ms, i, target, applied, env, chain) && chain[0] == db
    ensures var r := DownFrom(sql, db, ms, i, target, applied, env);
            chain[|chain| - 1] == r.db && DownStops(sql, ms, i, target, applied, env, chain, r.ok)
    decreases i
  {
    chain := [db];
    if i > 0 && !Lands(ms[i - 1], target, applied) {
      var next := DownFromTurns(sql, db, ms, i, target, applied, env);
      if next.ok {
        var r := DownFrom(sql, next.db, ms, i - 1, target, applied, env);
        var rest := DownFromWalks(sql, next.db, ms, i - 1, target, applied, env);
        DownWalkGrows(sql, db, ms, i, target, applied, env, rest, r.ok);
        chain := [db] + rest;
      }
    }
  }

  lemma {:induction false} SameDownWalk<S(!new)>(sql: Engine<S>, ms: seq<Migration>, i: nat, target: int,
                                                 applied: set<int>, env: Env, chain: seq<Db<S>>, chain': seq<Db<S>>,
                                                 k: nat)
    requires DownWalk(sql, ms, i, target, applied, env, chain) && DownWalk(sql, ms, i, target, applied, env, chain')
    requires chain[0] == chain'[0] && k < |chain| && k < |chain'|
    ensures chain[k] == chain'[k]
  {
    if k > 0 {
      var p := i - k;
      SameDownWalk(sql, ms, i, target, applied, env, chain, chain', k - 1);
      assert DownTurnAt(sql, ms, i, target, applied, env, chain, k - 1);
      assert DownTurnAt(sql, ms, i, target, applied, env, chain', k - 1);
      if ms[p].version in applied { RevertsTwice(sql, chain[k - 1], ms[p], env.tx(p), chain[k], chain'[k]); }
    }
  }

  lemma DownWalkEnds<S(!new)>(sql: Engine<S>, ms: seq<Migration>, i: nat, target: int, applied: set<int>, env: Env,
                              chain: seq<Db<S>>, chain': seq<Db<S>>, ok: bool)
    requires DownWalk(sql, ms, i, target, applied, env, chain) && DownWalk(sql, ms, i, target, applied, env, chain')
    requires chain[0] == chain'[0] && DownStops(sql, ms, i, target, applied, env, chain, ok)
    ensures |chain'| <= |chain|
  {
    var n := |chain| - 1;
    if |chain'| > |chain| {
      assert DownTurnAt(sql, ms, i, target, applied, env, chain', n);
      SameDownWalk(sql, ms, i, target, applied, env, chain, chain', n);
    }
  }

  /** In every environment DownTo does exactly that, and nothing else is an outcome of it. */
  lemma DownToExactly<S(!new)>(sql: Engine<S>, db: Db<S>, ms: seq<Migration>, target: int, env: Env, to: Db<S>,
                               ok: bool)
    ensures AfterDownTo(sql, db, ms, target, env) == Outcome(to, ok) <==> DownToRan(sql, db, ms, target, env, to, ok)
  {
    if env.ready {
      var applied := db.rows.Keys;
      var chain := DownFromWalks(sql, db, ms, |ms|, target, applied, env);
      var r := AfterDownTo(sql, db, ms, target, env);
      if DownToRan(sql, db, ms, target, env, to, ok) {
        var chain' :| DownWalk(sql, ms, |ms|, target, applied, env, chain') && chain'[0] == db &&
                      chain'[|chain'| - 1] == to && DownStops(sql, ms, |ms|, target, applied, env, chain', ok);
        DownWalkEnds(sql, ms, |ms|, target, applied, env, chain, chain', r.ok);
        DownWalkEnds(sql, ms, |ms|, target, applied, env, chain', chain, ok);
        SameDownWalk(sql, ms, |ms|, target, applied, env, chain, chain', |chain| - 1);
      }
    }
  }
}
