/** The migration engine as a function on database values (internal/db/migrate.go).
    The schema is abstract: one SQL statement is a partial function on it. */
module Migrations {
  import opened Text
  import opened Scripts

  datatype Migration = Migration(version: int, name: string, up: string, down: string)

  /** One row of _migrations; its version is the key of the map (the primary key). */
  datatype Row = Row(name: string, checksum: string)

  type Rows = map<int, Row>

  /** What the SQL engine makes of one statement, and the checksum of a script. */
  datatype Engine<!S> = Engine(exec: (S, string) -> Option<S>, digest: string -> string)

  datatype Db<+S> = Db(schema: S, rows: Rows)

  /** A database and whether the call that produced it returned a nil error. */
  datatype Outcome<+S> = Outcome(db: Db<S>, ok: bool)

  /** How the environment treats one transaction: whether BEGIN, the _migrations write and COMMIT
      go through, and at which statement, if any, the engine fails for a reason of its own. */
  datatype TxEnv = TxEnv(begin: bool, failAt: int, record: bool, commit: bool)

  const CALM_TX := TxEnv(true, -1, true, true)

  /** How the environment treats one call: whether table set-up and the first query succeed, whether the
      unchecked MAX(version) read of Migrate does, and each transaction, by position of its migration. */
  datatype Env = Env(ready: bool, readMax: bool, tx: nat -> TxEnv)

  const CALM := Env(true, true, i => CALM_TX)

  // ---------- Scripts and transactions

  function RunAll<S>(sql: Engine<S>, s: S, stmts: seq<string>, failAt: int): Option<S> {
    if stmts == [] then Some(s)
    else if failAt == 0 then None
    else
      match sql.exec(s, stmts[0])
      case None => None
      case Some(s') => RunAll(sql, s', stmts[1..], failAt - 1)
  }

  /** Run a whole script with no interference from the environment. */
  function RunScript<S>(sql: Engine<S>, s: S, script: string): Option<S> {
    RunAll(sql, s, Statements(script), -1)
  }

  /** One transaction: the script, then the write to _migrations (None: a constraint refuses it).
      It commits both or restores the database it started from. */
  function Transact<S>(sql: Engine<S>, db: Db<S>, script: string, write: Option<Rows>, env: TxEnv): Outcome<S> {
    if !env.begin then Outcome(db, false)
    else
      match RunAll(sql, db.schema, Statements(script), env.failAt)
      case None => Outcome(db, false)
      case Some(s) =>
        if env.record && write.Some? && env.commit then Outcome(Db(s, write.value), true) else Outcome(db, false)
  }

  // ---------- The _migrations table

  ghost predicate UniqueNames(rows: Rows) {
    forall v, w | v in rows && w in rows && rows[v].name == rows[w].name :: v == w
  }

  predicate HasName(rows: Rows, name: string) {
    exists v | v in rows :: rows[v].name == name
  }

  /** INSERT: refused when the version or the name is taken. */
  function Insert(rows: Rows, version: int, row: Row): Option<Rows> {
    if version in rows || HasName(rows, row.name) then None else Some(rows[version := row])
  }

  /** INSERT OR REPLACE: evicts every row that clashes on either key. */
  function Replace(rows: Rows, version: int, row: Row): Rows {
    (map v | v in rows && rows[v].name != row.name :: rows[v])[version := row]
  }

  lemma {:induction false} HasGreatest(versions: set<int>)
    requires versions != {}
    ensures exists m | m in versions :: forall v | v in versions :: v <= m
  {
    assert (forall v :: v !in versions) ==> versions == {};
    var x :| x in versions;
    var others := versions - {x};
    if others == {} {
      assert versions == {x};
    } else {
      HasGreatest(others);
      var m :| m in others && forall v | v in others :: v <= m;
      var top := if m < x then x else m;
      assert forall v | v in versions :: v == x || v in others;
      assert top in versions && forall v | v in versions :: v <= top;
    }
  }

  /** COALESCE(MAX(version), none). */
  function MaxVersion(versions: set<int>, none: int): (m: int)
    ensures versions == {} ==> m == none
    ensures versions != {} ==> m in versions && forall v | v in versions :: v <= m
  {
    if versions == {} then none
    else
      HasGreatest(versions);
      var m :| m in versions && forall v | v in versions :: v <= m;
      m
  }

  // ---------- Migrate, Up, Down, DownTo

  function NextVersion(rows: Rows, env: Env): int {
    (if env.readMax then MaxVersion(rows.Keys, 0) else 0) + 1
  }

  function AfterMigrate<S>(sql: Engine<S>, db: Db<S>, name: string, script: string, env: Env): Outcome<S> {
    if !env.ready then Outcome(db, false)
    else if HasName(db.rows, name) then Outcome(db, true)
    else
      var write := Insert(db.rows, NextVersion(db.rows, env), Row(name, sql.digest(script)));
      Transact(sql, db, script, write, env.tx(0))
  }

  function Record<S>(sql: Engine<S>, m: Migration): Row {
    Row(m.name, sql.digest(m.up))
  }

  function AfterApply<S>(sql: Engine<S>, db: Db<S>, m: Migration, env: TxEnv): Outcome<S> {
    Transact(sql, db, m.up, Some(Replace(db.rows, m.version, Record(sql, m))), env)
  }

  /** One turn of Up's loop; applied is the set of versions read at the start. */
  function Advance<S>(sql: Engine<S>, before: Outcome<S>, m: Migration, applied: set<int>, env: TxEnv): Outcome<S> {
    if !before.ok || m.version in applied then before else AfterApply(sql, before.db, m, env)
  }

  /** Up once it has dealt with the first k migrations. */
  function UpTo<S>(sql: Engine<S>, db: Db<S>, ms: seq<Migration>, k: nat, applied: set<int>, env: Env): Outcome<S>
    requires k <= |ms|
  {
    if k == 0 then Outcome(db, true)
    else Advance(sql, UpTo(sql, db, ms, k - 1, applied, env), ms[k - 1], applied, env.tx(k - 1))
  }

  function AfterUp<S>(sql: Engine<S>, db: Db<S>, ms: seq<Migration>, env: Env): Outcome<S> {
    if !env.ready then Outcome(db, false) else UpTo(sql, db, ms, |ms|, db.rows.Keys, env)
  }

  function AfterRevert<S>(sql: Engine<S>, db: Db<S>, m: Migration, env: TxEnv): Outcome<S> {
    if m.down == "" then Outcome(db, true)
    else Transact(sql, db, m.down, Some(db.rows - {m.version}), env)
  }

  /** The largest position below i whose migration has this version, or -1. */
  function LastWith(ms: seq<Migration>, i: nat, version: int): (p: int)
    requires i <= |ms|
    ensures -1 <= p < i
    ensures p >= 0 ==> ms[p].version == version
    ensures forall q | p < q < i :: ms[q].version != version
  {
    if i == 0 then -1 else if ms[i - 1].version == version then i - 1 else LastWith(ms, i - 1, version)
  }

  function AfterDown<S>(sql: Engine<S>, db: Db<S>, ms: seq<Migration>, env: Env): Outcome<S> {
    if !env.ready then Outcome(db, false)
    else
      var max := MaxVersion(db.rows.Keys, -1);
      var p := LastWith(ms, |ms|, max);
      if max < 0 || p < 0 then Outcome(db, true) else AfterRevert(sql, db, ms[p], env.tx(p))
  }

  /** DownTo with the migrations at positions below i still to look at. */
  function DownFrom<S>(sql: Engine<S>, db: Db<S>, ms: seq<Migration>, i: nat, target: int, applied: set<int>,
                       env: Env): Outcome<S>
    requires i <= |ms|
    decreases i
  {
    if i == 0 then Outcome(db, true)
    else
      var m := ms[i - 1];
      if m.version !in applied then DownFrom(sql, db, ms, i - 1, target, applied, env)
      else if target >= 0 && m.version <= target then Outcome(db, true)
      else
        var r := AfterRevert(sql, db, m, env.tx(i - 1));
        if r.ok then DownFrom(sql, r.db, ms, i - 1, target, applied, env) else r
  }

  function AfterDownTo<S>(sql: Engine<S>, db: Db<S>, ms: seq<Migration>, target: int, env: Env): Outcome<S> {
    if !env.ready then Outcome(db, false) else DownFrom(sql, db, ms, |ms|, target, db.rows.Keys, env)
  }

  // ---------- Scripts compose

  lemma {:induction false} NoFault<S>(sql: Engine<S>, s: S, stmts: seq<string>, f: int)
    requires f < 0
    ensures RunAll(sql, s, stmts, f) == RunAll(sql, s, stmts, -1)
  {
    if stmts != [] {
      match sql.exec(s, stmts[0])
      case None =>
      case Some(s') =>
        NoFault(sql, s', stmts[1..], f - 1);
        NoFault(sql, s', stmts[1..], -2);
    }
  }

  lemma {:induction false} RunAllConcatFrom<S>(sql: Engine<S>, s: S, p: seq<string>, q: seq<string>, f: int)
    requires f < 0
    ensures RunAll(sql, s, p + q, f) ==
            match RunAll(sql, s, p, f) case None => None case Some(s') => RunAll(sql, s', q, -1)
  {
    if p == [] {
      assert p + q == q;
      NoFault(sql, s, q, f);
    } else {
      assert (p + q)[0] == p[0] && (p + q)[1..] == p[1..] + q;
      match sql.exec(s, p[0])
      case None =>
      case Some(s') => RunAllConcatFrom(sql, s', p[1..], q, f - 1);
    }
  }

  lemma {:induction false} RunAllConcat<S>(sql: Engine<S>, s: S, p: seq<string>, q: seq<string>)
    ensures RunAll(sql, s, p + q, -1) ==
            match RunAll(sql, s, p, -1) case None => None case Some(s') => RunAll(sql, s', q, -1)
  {
    RunAllConcatFrom(sql, s, p, q, -1);
    NoFault(sql, s, q, -1);
  }

  /** A script that got through in any environment gets through in a calm one, to the same schema. */
  lemma {:induction false} FaultOnlyStops<S>(sql: Engine<S>, s: S, stmts: seq<string>, f: int)
    ensures RunAll(sql, s, stmts, f).Some? ==> RunAll(sql, s, stmts, f) == RunAll(sql, s, stmts, -1)
  {
    if stmts != [] && f != 0 {
      match sql.exec(s, stmts[0])
      case None =>
      case Some(s') =>
        FaultOnlyStops(sql, s', stmts[1..], f - 1);
        NoFault(sql, s', stmts[1..], -2);
    }
  }

  /** Running a + ";" + b has the outcome of running a and then b in the same transaction,
      and a blank segment has no effect on any script. */
  lemma ScriptsCompose<S>(sql: Engine<S>, s: S, a: string, b: string)
    ensures RunScript(sql, s, a + ";" + b) ==
            match RunScript(sql, s, a) case None => None case Some(s') => RunScript(sql, s', b)
    ensures Blank(b) ==> RunScript(sql, s, a + ";" + b) == RunScript(sql, s, a) == RunScript(sql, s, b + ";" + a)
  {
    StatementsConcat(a, b);
    RunAllConcat(sql, s, Statements(a), Statements(b));
    if Blank(b) {
      BlankSegmentsVanish(a, b);
    }
  }
}
