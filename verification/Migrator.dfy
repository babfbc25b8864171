/** The database handle and the migrator as the objects the program holds (internal/db/migrate.go).
    A transaction works on local copies and reaches the fields only when it commits. */
module MigrationDriver {
  import opened Text
  import opened Scripts
  import opened Migrations
  import opened MigrationWalks
  import RunLaws

  class Database<S(!new)> {
    const sql: Engine<S>
    var schema: S
    var rows: Rows

    constructor (sql: Engine<S>, schema: S, rows: Rows)
      ensures this.sql == sql && State() == Db(schema, rows)
    {
      this.sql := sql;
      this.schema := schema;
      this.rows := rows;
    }

    function State(): Db<S>
      reads this
    {
      Db(schema, rows)
    }

    /** The loop that Migrate, Up and revert each contain: cut, trim, skip blanks, execute. It ends well exactly if the
        engine accepts every statement in turn. */
    method Execute(script: string, start: S, failAt: int) returns (end: Option<S>)
      ensures end == RunAll(sql, start, Statements(script), failAt)
      ensures forall t :: end == Some(t) <==> Executes(sql, start, Statements(script), failAt, t)
    {
      forall t ensures RunAll(sql, start, Statements(script), failAt) == Some(t)
                       <==> Executes(sql, start, Statements(script), failAt, t)
      {
        RunAllExactly(sql, start, Statements(script), failAt, t);
      }
      var parts := Split(script, ';');
      var s, left := start, failAt;
      assert parts[0..] == parts;
      for i := 0 to |parts|
        invariant RunAll(sql, start, Statements(script), failAt) == RunAll(sql, s, NonBlank(parts[i..]), left)
      {
        var stmt := TrimSpace(parts[i]);
        assert parts[i..][1..] == parts[i + 1..];
        if stmt == "" {
          assert NonBlank(parts[i..]) == NonBlank(parts[i + 1..]);
          continue;
        }
        assert NonBlank(parts[i..])[1..] == NonBlank(parts[i + 1..]);
        if left == 0 { return None; }
        var r := sql.exec(s, stmt);
        if r.None? { return None; }
        s, left := r.value, left - 1;
      }
      return Some(s);
    }

    method Migrate(name: string, script: string, env: Env) returns (ok: bool)
      modifies this
      ensures forall ms ::
                Outcome(State(), ok) == RunLaws.Step(sql, old(State()), ms, RunLaws.CallMigrate(name, script, env))
      ensures MigrateRan(sql, old(State()), name, script, env, State(), ok)
    {
      MigrateExactly(sql, State(), name, script, env);
      if !env.ready { return false; }
      if HasName(rows, name) { return true; }
      if !env.tx(0).begin { return false; }
      var end := Execute(script, schema, env.tx(0).failAt);
      if end.None? { return false; }
      var version := (if env.readMax then MaxVersion(rows.Keys, 0) else 0) + 1;
      var write := Insert(rows, version, Row(name, sql.digest(script)));
      if write.None? || !env.tx(0).record || !env.tx(0).commit { return false; }
      schema, rows := end.value, write.value;
      return true;
    }
  }

  lemma {:induction false} FailureSticks<S>(sql: Engine<S>, db: Db<S>, ms: seq<Migration>, k: nat, n: nat,
                                            applied: set<int>, env: Env)
    requires k <= n <= |ms| && !UpTo(sql, db, ms, k, applied, env).ok
    ensures UpTo(sql, db, ms, n, applied, env) == UpTo(sql, db, ms, k, applied, env)
  {
    if k < n {
      FailureSticks(sql, db, ms, k, n - 1, applied, env);
    }
  }

  ghost predicate TurnOf<S>(sql: Engine<S>, turns: seq<Outcome<S>>, ms: seq<Migration>, applied: set<int>, env: Env,
                            k: nat)
    requires k < |ms| && |turns| == |ms| + 1
  {
    turns[k + 1] == Advance(sql, turns[k], ms[k], applied, env.tx(k))
  }

  /** The outcomes that the specification gives Up's loop turn by turn, a failed one to the end. */
  lemma TurnsOfUp<S(!new)>(sql: Engine<S>, start: Db<S>, ms: seq<Migration>, env: Env) returns (turns: seq<Outcome<S>>)
    requires env.ready
    ensures |turns| == |ms| + 1 && turns[0] == Outcome(start, true)
    ensures forall k {:trigger TurnOf(sql, turns, ms, start.rows.Keys, env, k)} | 0 <= k < |ms| ::
              TurnOf(sql, turns, ms, start.rows.Keys, env, k)
    ensures forall k | 0 <= k <= |ms| && !turns[k].ok :: turns[|ms|] == turns[k]
    ensures turns[|ms|] == RunLaws.Step(sql, start, ms, RunLaws.CallUp(env))
  {
    var applied := start.rows.Keys;
    turns := seq(|ms| + 1, k requires 0 <= k <= |ms| => UpTo(sql, start, ms, k, applied, env));
    forall k | 0 <= k <= |ms| && !turns[k].ok ensures turns[|ms|] == turns[k] {
      FailureSticks(sql, start, ms, k, |ms|, applied, env);
    }
  }

  class Migrator<S(!new)> {
    const db: Database<S>
    var migrations: seq<Migration>

    constructor (db: Database<S>)
      ensures this.db == db && migrations == []
    {
      this.db := db;
      migrations := [];
    }

    method Add(more: seq<Migration>)
      modifies this
      ensures migrations == old(migrations) + more
      ensures forall ops, n: nat {:trigger RunLaws.Registered(ops, n)} |
                n < |ops| && ops[n] == RunLaws.CallAdd(more) && RunLaws.Registered(ops, n) == old(migrations) ::
                RunLaws.Registered(ops, n + 1) == migrations
    {
      migrations := migrations + more;
    }

    /** MigrationWalks.UpExactly says what this outcome is, turn by turn. */
    method Up(env: Env) returns (ok: bool)
      modifies db
      ensures Outcome(db.State(), ok) == RunLaws.Step(db.sql, old(db.State()), migrations, RunLaws.CallUp(env))
    {
      if !env.ready { return false; }
      ghost var turns := TurnsOfUp(db.sql, db.State(), migrations, env);
      var applied := db.rows.Keys;
      for k := 0 to |migrations|
        invariant turns[k] == Outcome(db.State(), true)
      {
        var m := migrations[k];
        assert TurnOf(db.sql, turns, migrations, applied, env, k);
        if m.version in applied { continue; }
        ok := Apply(m, env.tx(k));
        if !ok { return; }
      }
      return true;
    }

    method Apply(m: Migration, env: TxEnv) returns (ok: bool)
      modifies db
      ensures Outcome(db.State(), ok) == AfterApply(db.sql, old(db.State()), m, env)
      ensures if ok then Applies(db.sql, old(db.State()), m, env, db.State())
              else db.State() == old(db.State()) && forall to :: !Applies(db.sql, old(db.State()), m, env, to)
    {
      ApplyExactly(db.sql, db.State(), m, env);
      if !env.begin { return false; }
      var end := db.Execute(m.up, db.schema, env.failAt);
      if end.None? || !env.record || !env.commit { return false; }
      db.schema, db.rows := end.value, Replace(db.rows, m.version, Record(db.sql, m));
      return true;
    }

    method Down(env: Env) returns (ok: bool)
      modifies db
      ensures Outcome(db.State(), ok) == RunLaws.Step(db.sql, old(db.State()), migrations, RunLaws.CallDown(env))
      ensures DownRan(db.sql, old(db.State()), migrations, env, db.State(), ok)
    {
      DownExactly(db.sql, db.State(), migrations, env);
      if !env.ready { return false; }
      var max := MaxVersion(db.rows.Keys, -1);
      if max < 0 { return true; }
      var i := |migrations|;
      while i > 0
        invariant 0 <= i <= |migrations|
        invariant db.State() == old(db.State())
        invariant LastWith(migrations, i, max) == LastWith(migrations, |migrations|, max)
      {
        i := i - 1;
        if migrations[i].version == max {
          ok := Revert(migrations[i], env.tx(i));
          return;
        }
      }
      return true;
    }

    /** MigrationWalks.DownToExactly says what this outcome is, turn by turn. */
    method DownTo(target: int, env: Env) returns (ok: bool)
      modifies db
      ensures Outcome(db.State(), ok)
           == RunLaws.Step(db.sql, old(db.State()), migrations, RunLaws.CallDownTo(target, env))
    {
      if !env.ready { return false; }
      var applied := db.rows.Keys;
      var i := |migrations|;
      while i > 0
        invariant 0 <= i <= |migrations|
        invariant DownFrom(db.sql, db.State(), migrations, i, target, applied, env)
               == AfterDownTo(db.sql, old(db.State()), migrations, target, env)
      {
        i := i - 1;
        var m := migrations[i];
        if m.version !in applied { continue; }
        if target >= 0 && m.version <= target { return true; }
        ok := Revert(m, env.tx(i));
        if !ok { return; }
      }
      return true;
    }

    method Revert(m: Migration, env: TxEnv) returns (ok: bool)
      modifies db
      ensures Outcome(db.State(), ok) == AfterRevert(db.sql, old(db.State()), m, env)
      ensures if ok then Reverts(db.sql, old(db.State()), m, env, db.State())
              else db.State() == old(db.State()) && forall to :: !Reverts(db.sql, old(db.State()), m, env, to)
    {
      RevertExactly(db.sql, db.State(), m, env);
      if m.down == "" { return true; }
      if !env.begin { return false; }
      var end := db.Execute(m.down, db.schema, env.failAt);
      if end.None? || !env.record || !env.commit { return false; }
      db.schema, db.rows := end.value, db.rows - {m.version};
      return true;
    }
  }
}
