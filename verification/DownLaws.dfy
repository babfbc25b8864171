/** Down and DownTo undo Up, and agree with each other (internal/db/migrate.go:122-199). */
module DownLaws {
  import opened Text
  import opened Migrations
  import opened UpLaws

  ghost predicate Ascending(ms: seq<Migration>) {
    forall i, j | 0 <= i < j < |ms| :: ms[i].version < ms[j].version
  }

  ghost predicate NonNegative(ms: seq<Migration>) {
    forall i | 0 <= i < |ms| :: ms[i].version >= 0
  }

  ghost predicate AllHaveDown(ms: seq<Migration>) {
    forall i | 0 <= i < |ms| :: ms[i].down != ""
  }

  /** The schema and records of the first k migrations, applied to an empty record. */
  ghost function Level<S>(sql: Engine<S>, s: S, ms: seq<Migration>, k: nat): Outcome<S>
    requires k <= |ms|
  {
    UpTo(sql, Db(s, map[]), ms, k, {}, CALM)
  }

  /** The k-th Down script takes the schema its Up script left back to the schema its Up script found. */
  ghost predicate DownUndoesUp<S>(sql: Engine<S>, s: S, ms: seq<Migration>, k: nat)
    requires k < |ms|
  {
    var low, high := Level(sql, s, ms, k), Level(sql, s, ms, k + 1);
    high.ok ==> RunScript(sql, high.db.schema, ms[k].down) == Some(low.db.schema)
  }

  ghost predicate Reversible<S>(sql: Engine<S>, s: S, ms: seq<Migration>) {
    forall k | 0 <= k < |ms| :: DownUndoesUp(sql, s, ms, k)
  }

  ghost predicate Undoable<S>(sql: Engine<S>, s: S, ms: seq<Migration>) {
    Ascending(ms) && NonNegative(ms) && DistinctNames(ms) && AllHaveDown(ms) && Reversible(sql, s, ms)
  }

  /** The migrations of version at most target. */
  function Kept(ms: seq<Migration>, target: int): seq<Migration> {
    if ms == [] then []
    else (if ms[0].version <= target then [ms[0]] else []) + Kept(ms[1..], target)
  }

  lemma {:induction false} KeptIsPrefix(ms: seq<Migration>, target: int, j: nat)
    requires j <= |ms|
    requires forall i | 0 <= i < j :: ms[i].version <= target
    requires forall i | j <= i < |ms| :: ms[i].version > target
    ensures Kept(ms, target) == ms[..j]
  {
    if j > 0 {
      KeptIsPrefix(ms[1..], target, j - 1);
      assert ms[..j] == [ms[0]] + ms[1..][..j - 1];
    } else if ms != [] {
      KeptIsPrefix(ms[1..], target, 0);
      assert ms[..0] == [] && ms[1..][..0] == [];
    }
  }

  lemma LevelStep<S>(sql: Engine<S>, s: S, ms: seq<Migration>, k: nat)
    requires k < |ms| && Ascending(ms) && DistinctNames(ms) && Level(sql, s, ms, k + 1).ok
    ensures Level(sql, s, ms, k).ok
    ensures Level(sql, s, ms, k + 1).db.rows - {ms[k].version} == Level(sql, s, ms, k).db.rows
  {
    var rows: Rows := map[];
    AdvanceCalm(sql, Level(sql, s, ms, k), ms[k], {}, CALM.tx(k));
    assert rows.Keys == {};
    UpRecords(sql, Db(s, rows), ms, k, CALM);
    UpRecords(sql, Db(s, rows), ms, k + 1, CALM);
    NoEviction(sql, rows, ms, k);
  }

  /** Reverting m from one database leads to the other, or, if it fails, nowhere; a calm one succeeds. */
  ghost predicate RevertsTo<S>(sql: Engine<S>, from: Db<S>, m: Migration, to: Db<S>) {
    forall env: TxEnv ::
      var r := AfterRevert(sql, from, m, env);
      r.db == (if r.ok then to else from) && (env == CALM_TX ==> r.ok)
  }

  /** Databases in which every one is a revert away from the one below. */
  ghost predicate Ladder<S>(sql: Engine<S>, levels: seq<Db<S>>, ms: seq<Migration>) {
    |levels| == |ms| + 1 &&
    forall i | 0 < i <= |ms| :: RevertsTo(sql, levels[i], ms[i - 1], levels[i - 1])
  }

  lemma RevertsByScript<S>(sql: Engine<S>, from: Db<S>, m: Migration, to: Db<S>)
    requires m.down != "" && RunScript(sql, from.schema, m.down) == Some(to.schema)
    requires from.rows - {m.version} == to.rows
    ensures RevertsTo(sql, from, m, to)
  {
    forall env: TxEnv
      ensures var r := AfterRevert(sql, from, m, env);
              r.db == (if r.ok then to else from) && (env == CALM_TX ==> r.ok)
    {
      TransactCalm(sql, from, m.down, Some(to.rows), env);
    }
  }

  lemma RevertLevel<S>(sql: Engine<S>, s: S, ms: seq<Migration>, i: nat)
    requires 0 < i <= |ms| && Ascending(ms) && DistinctNames(ms) && ms[i - 1].down != ""
    requires DownUndoesUp(sql, s, ms, i - 1) && Level(sql, s, ms, i).ok
    ensures RevertsTo(sql, Level(sql, s, ms, i).db, ms[i - 1], Level(sql, s, ms, i - 1).db)
  {
    var k := i - 1;
    var low, high := Level(sql, s, ms, k), Level(sql, s, ms, k + 1);
    assert RunScript(sql, high.db.schema, ms[k].down) == Some(low.db.schema);
    LevelStep(sql, s, ms, k);
    RevertsByScript(sql, high.db, ms[k], low.db);
  }

  ghost function Levels<S>(sql: Engine<S>, s: S, ms: seq<Migration>): seq<Db<S>> {
    seq(|ms| + 1, k requires 0 <= k <= |ms| => Level(sql, s, ms, k).db)
  }

  lemma LevelsBelow<S>(sql: Engine<S>, s: S, ms: seq<Migration>, i: nat, n: nat)
    requires i <= n <= |ms| && Level(sql, s, ms, n).ok
    ensures Level(sql, s, ms, i).ok
  {
    UpOkBelow(sql, Db(s, map[]), ms, i, n, {}, CALM);
  }

  lemma Rung<S>(sql: Engine<S>, s: S, ms: seq<Migration>, i: nat)
    requires 0 < i <= |ms| && Undoable(sql, s, ms) && Level(sql, s, ms, |ms|).ok
    ensures RevertsTo(sql, Levels(sql, s, ms)[i], ms[i - 1], Levels(sql, s, ms)[i - 1])
  {
    LevelsBelow(sql, s, ms, i, |ms|);
    assert DownUndoesUp(sql, s, ms, i - 1);
    RevertLevel(sql, s, ms, i);
  }

  lemma LevelsAreLadder<S>(sql: Engine<S>, s: S, ms: seq<Migration>)
    requires Undoable(sql, s, ms) && Level(sql, s, ms, |ms|).ok
    ensures Ladder(sql, Levels(sql, s, ms), ms)
  {
    forall i | 0 < i <= |ms|
      ensures RevertsTo(sql, Levels(sql, s, ms)[i], ms[i - 1], Levels(sql, s, ms)[i - 1])
    {
      Rung(sql, s, ms, i);
    }
  }

  ghost predicate CalmTx(env: Env) {
    forall q: nat :: env.tx(q) == CALM_TX
  }

  /** j is where a descent from i to target ends. */
  ghost predicate Landing(ms: seq<Migration>, i: nat, j: nat, target: int)
    requires i <= |ms|
  {
    j <= i && (j > 0 ==> ms[j - 1].version <= target) && forall q | j <= q < i :: ms[q].version > target
  }

  ghost predicate AllIn(ms: seq<Migration>, applied: set<int>) {
    forall q | 0 <= q < |ms| :: ms[q].version in applied
  }

  lemma DownFromStep<S>(sql: Engine<S>, db: Db<S>, ms: seq<Migration>, i: nat, target: int, applied: set<int>, env: Env)
    requires 0 < i <= |ms| && AllIn(ms, applied)
    ensures DownFrom(sql, db, ms, i, target, applied, env) ==
            if target >= 0 && ms[i - 1].version <= target then Outcome(db, true)
            else var r := AfterRevert(sql, db, ms[i - 1], env.tx(i - 1));
                 if r.ok then DownFrom(sql, r.db, ms, i - 1, target, applied, env) else r
  {
  }

  lemma LandingExtends(ms: seq<Migration>, i: nat, j: nat, target: int)
    requires 0 < i <= |ms| && j < i && NonNegative(ms) && !(target >= 0 && ms[i - 1].version <= target)
    ensures Landing(ms, i - 1, j, target) ==> Landing(ms, i, j, target)
  {
  }

  lemma {:induction false} DownTheLadder<S>(sql: Engine<S>, levels: seq<Db<S>>, ms: seq<Migration>, i: nat,
                                                  target: int, applied: set<int>, env: Env) returns (j: nat)
    requires i <= |ms| && Ladder(sql, levels, ms) && NonNegative(ms) && AllIn(ms, applied)
    ensures j <= i
    ensures var r := DownFrom(sql, levels[i], ms, i, target, applied, env);
            && r.db == levels[j]
            && (r.ok ==> Landing(ms, i, j, target))
            && (CalmTx(env) ==> r.ok)
  {
    j := i;
    if i > 0 {
      DownFromStep(sql, levels[i], ms, i, target, applied, env);
      if !(target >= 0 && ms[i - 1].version <= target) {
        assert RevertsTo(sql, levels[i], ms[i - 1], levels[i - 1]);
        if AfterRevert(sql, levels[i], ms[i - 1], env.tx(i - 1)).ok {
          j := DownTheLadder(sql, levels, ms, i - 1, target, applied, env);
          LandingExtends(ms, i, j, target);
        }
      }
    }
  }

  lemma LandingIsKept<S>(sql: Engine<S>, s: S, ms: seq<Migration>, j: nat, target: int)
    requires Ascending(ms) && Landing(ms, |ms|, j, target) && Level(sql, s, ms, |ms|).ok
    ensures Outcome(Level(sql, s, ms, j).db, true) == AfterUp(sql, Db(s, map[]), Kept(ms, target), CALM)
    ensures (forall i | 0 <= i < |ms| :: target < ms[i].version) ==> j == 0
  {
    KeptIsPrefix(ms, target, j);
    var rows: Rows := map[];
    assert rows.Keys == {};
    UpToPrefix(sql, Db(s, rows), ms, ms[..j], j, {}, CALM);
    LevelsBelow(sql, s, ms, j, |ms|);
  }

  lemma UpReachesTop<S>(sql: Engine<S>, s: S, ms: seq<Migration>, up: Env)
    requires Ascending(ms) && DistinctNames(ms) && AfterUp(sql, Db(s, map[]), ms, up).ok
    ensures AfterUp(sql, Db(s, map[]), ms, up) == Level(sql, s, ms, |ms|)
    ensures AllIn(ms, Level(sql, s, ms, |ms|).db.rows.Keys)
  {
    var rows: Rows := map[];
    assert rows.Keys == {};
    UpToCalm(sql, Db(s, rows), ms, |ms|, {}, up);
    UpRecords(sql, Db(s, rows), ms, |ms|, CALM);
    RecordedKeys(sql, rows, ms, |ms|);
  }

  /** Round trip. After a successful Up on an empty record, DownTo(target) leaves exactly the schema and
      records of applying only the versions up to target; below every version, the original database.
      Should it fail, the database stands at some whole level in between. */
  lemma RoundTrip<S>(sql: Engine<S>, s: S, ms: seq<Migration>, target: int, up: Env, down: Env) returns (j: nat)
    requires Undoable(sql, s, ms) && AfterUp(sql, Db(s, map[]), ms, up).ok
    ensures j <= |ms|
    ensures var r := AfterDownTo(sql, AfterUp(sql, Db(s, map[]), ms, up).db, ms, target, down);
            && r.db == Level(sql, s, ms, j).db
            && (r.ok ==> r == AfterUp(sql, Db(s, map[]), Kept(ms, target), CALM))
            && (r.ok && (forall i | 0 <= i < |ms| :: target < ms[i].version) ==> r.db == Db(s, map[]))
            && (down.ready && CalmTx(down) ==> r.ok)
  {
    UpReachesTop(sql, s, ms, up);
    j := |ms|;
    if down.ready {
      var top := Level(sql, s, ms, |ms|).db;
      LevelsAreLadder(sql, s, ms);
      j := DownTheLadder(sql, Levels(sql, s, ms), ms, |ms|, target, top.rows.Keys, down);
      if Landing(ms, |ms|, j, target) {
        LandingIsKept(sql, s, ms, j, target);
      }
    }
  }

  // ---------- Down, repeated

  function Above(rows: Rows, target: int): set<int> {
    set v | v in rows && v > target
  }

  function DownTimes<S>(sql: Engine<S>, db: Db<S>, ms: seq<Migration>, k: nat): Db<S>
    decreases k
  {
    if k == 0 then db else DownTimes(sql, AfterDown(sql, db, ms, CALM).db, ms, k - 1)
  }

  ghost predicate AllRegistered(rows: Rows, ms: seq<Migration>) {
    forall v | v in rows :: exists i | 0 <= i < |ms| :: ms[i].version == v
  }

  /** DownTo passes over the positions from i to n when none of them is recorded. */
  lemma {:induction false} DownFromSkips<S>(sql: Engine<S>, db: Db<S>, ms: seq<Migration>, i: nat, n: nat, target: int,
                                            applied: set<int>, env: Env)
    requires i <= n <= |ms| && forall q | i <= q < n :: ms[q].version !in applied
    ensures DownFrom(sql, db, ms, n, target, applied, env) == DownFrom(sql, db, ms, i, target, applied, env)
  {
    if i < n {
      DownFromSkips(sql, db, ms, i, n - 1, target, applied, env);
    }
  }

  lemma {:induction false} DownFromReads<S>(sql: Engine<S>, db: Db<S>, ms: seq<Migration>, i: nat, target: int,
                                            applied: set<int>, applied': set<int>, env: Env)
    requires i <= |ms| && forall q | 0 <= q < i :: ms[q].version in applied <==> ms[q].version in applied'
    ensures DownFrom(sql, db, ms, i, target, applied, env) == DownFrom(sql, db, ms, i, target, applied', env)
    decreases i
  {
    if i > 0 {
      var r := AfterRevert(sql, db, ms[i - 1], env.tx(i - 1));
      DownFromReads(sql, db, ms, i - 1, target, applied, applied', env);
      DownFromReads(sql, r.db, ms, i - 1, target, applied, applied', env);
    }
  }

  lemma {:induction false} DownTimesStuck<S>(sql: Engine<S>, db: Db<S>, ms: seq<Migration>, k: nat)
    requires AfterDown(sql, db, ms, CALM).db == db
    ensures DownTimes(sql, db, ms, k) == db
  {
    if k > 0 {
      DownTimesStuck(sql, db, ms, k - 1);
    }
  }

  /** The position of the latest recorded migration; later ones are not recorded. */
  lemma TopPosition(rows: Rows, ms: seq<Migration>) returns (p: nat)
    requires Ascending(ms) && NonNegative(ms) && AllRegistered(rows, ms) && rows.Keys != {}
    ensures p < |ms| && ms[p].version == MaxVersion(rows.Keys, -1) >= 0
    ensures p == LastWith(ms, |ms|, MaxVersion(rows.Keys, -1))
    ensures forall q | p < q < |ms| :: ms[q].version !in rows
  {
    var top := MaxVersion(rows.Keys, -1);
    p :| 0 <= p < |ms| && ms[p].version == top;
    var last := LastWith(ms, |ms|, top);
    assert last == p;
  }

  lemma {:induction false} NothingAbove<S>(sql: Engine<S>, db: Db<S>, ms: seq<Migration>, i: nat, target: int, env: Env)
    requires i <= |ms| && NonNegative(ms)
    requires forall v | v in db.rows :: v <= target
    ensures DownFrom(sql, db, ms, i, target, db.rows.Keys, env) == Outcome(db, true)
  {
    if i > 0 {
      NothingAbove(sql, db, ms, i - 1, target, env);
    }
  }

  lemma RevertDropsRow<S>(sql: Engine<S>, db: Db<S>, m: Migration, env: TxEnv)
    requires m.down != ""
    ensures var r := AfterRevert(sql, db, m, env);
            if r.ok then r.db.rows == db.rows - {m.version} else r.db == db
  {
  }

  /** The latest recorded migration is above target if any record is; it is the one Down reverts. */
  lemma TopAbove(rows: Rows, ms: seq<Migration>, target: int) returns (p: nat)
    requires Ascending(ms) && NonNegative(ms) && AllRegistered(rows, ms) && Above(rows, target) != {}
    ensures p < |ms| && ms[p].version in rows && ms[p].version > target
    ensures ms[p].version == MaxVersion(rows.Keys, -1) >= 0 && p == LastWith(ms, |ms|, MaxVersion(rows.Keys, -1))
    ensures forall q | p < q < |ms| :: ms[q].version !in rows
  {
    var above := Above(rows, target);
    assert (forall v :: v !in above) ==> above == {};
    var v :| v in above;
    assert v in rows.Keys;
    p := TopPosition(rows, ms);
  }

  lemma DownRepeatedStep<S>(sql: Engine<S>, db: Db<S>, ms: seq<Migration>, target: int, p: nat, r: Outcome<S>)
    requires Ascending(ms) && p < |ms| && ms[p].version in db.rows && target < ms[p].version
    requires forall q | p < q < |ms| :: ms[q].version !in db.rows
    requires r == AfterRevert(sql, db, ms[p], CALM_TX) && r.ok && r.db.rows == db.rows - {ms[p].version}
    ensures |Above(db.rows, target)| == |Above(r.db.rows, target)| + 1
    ensures |r.db.rows| < |db.rows|
    ensures DownFrom(sql, db, ms, p + 1, target, db.rows.Keys, CALM) == AfterDownTo(sql, r.db, ms, target, CALM)
  {
    var v := ms[p].version;
    assert Above(db.rows, target) == Above(r.db.rows, target) + {v};
    assert db.rows.Keys == r.db.rows.Keys + {v};
    assert |db.rows.Keys| == |r.db.rows.Keys| + 1;
    DownFromReads(sql, r.db, ms, p, target, db.rows.Keys, r.db.rows.Keys, CALM);
    DownFromSkips(sql, r.db, ms, p, |ms|, target, r.db.rows.Keys, CALM);
  }

  /** Calling Down once for every record above target does what one DownTo(target) does, to schema and
      records alike, even when a Down script fails on the way. */
  lemma {:induction false} DownRepeatedIsDownTo<S>(sql: Engine<S>, db: Db<S>, ms: seq<Migration>, target: int)
    requires Ascending(ms) && NonNegative(ms) && AllHaveDown(ms) && AllRegistered(db.rows, ms)
    ensures DownTimes(sql, db, ms, |Above(db.rows, target)|) == AfterDownTo(sql, db, ms, target, CALM).db
    decreases |db.rows|
  {
    var above := Above(db.rows, target);
    if above == {} {
      assert forall v | v in db.rows :: v !in above;
      NothingAbove(sql, db, ms, |ms|, target, CALM);
    } else {
      var p := TopAbove(db.rows, ms, target);
      var r := AfterRevert(sql, db, ms[p], CALM_TX);
      RevertDropsRow(sql, db, ms[p], CALM_TX);
      DownFromSkips(sql, db, ms, p + 1, |ms|, target, db.rows.Keys, CALM);
      if r.ok {
        DownRepeatedStep(sql, db, ms, target, p, r);
        DownRepeatedIsDownTo(sql, r.db, ms, target);
      } else {
        DownTimesStuck(sql, db, ms, |above|);
      }
    }
  }

  /** An empty Down script stops Down for good, however often it is called, while DownTo steps over it. */
  lemma EmptyDownBlocks<S>(sql: Engine<S>, db: Db<S>, ms: seq<Migration>, p: nat, target: int, env: Env, k: nat)
    requires Ascending(ms) && NonNegative(ms) && AllRegistered(db.rows, ms)
    requires p < |ms| && ms[p].version in db.rows && ms[p].down == ""
    requires forall q | p < q < |ms| :: ms[q].version !in db.rows
    requires env.ready && target < ms[p].version
    ensures AfterDown(sql, db, ms, env) == Outcome(db, true) && DownTimes(sql, db, ms, k) == db
    ensures AfterDownTo(sql, db, ms, target, env) == DownFrom(sql, db, ms, p, target, db.rows.Keys, env)
  {
    assert ms[p].version in db.rows.Keys;
    var top := TopPosition(db.rows, ms);
    assert top == p;
    DownTimesStuck(sql, db, ms, k);
    DownFromSkips(sql, db, ms, p + 1, |ms|, target, db.rows.Keys, env);
  }

  // ---------- Empty Down scripts

  /** No recorded migration above target without a Down script stands over one that has one. */
  ghost predicate Unblocked(rows: Rows, ms: seq<Migration>, target: int) {
    forall q, p | 0 <= q < p < |ms| && ms[q].version in rows && ms[p].version in rows ::
      target < ms[q].version && ms[p].down == "" ==> ms[q].down == ""
  }

  ghost predicate Reverts(rows: Rows, ms: seq<Migration>, target: int, q: nat)
    requires q < |ms|
  {
    ms[q].version in rows && target < ms[q].version && ms[q].down != ""
  }

  lemma {:induction false} DownFromShrinks<S>(sql: Engine<S>, db: Db<S>, ms: seq<Migration>, i: nat, target: int,
                                              applied: set<int>, env: Env)
    requires i <= |ms|
    ensures DownFrom(sql, db, ms, i, target, applied, env).db.rows.Keys <= db.rows.Keys
    decreases i
  {
    if i > 0 {
      var r := AfterRevert(sql, db, ms[i - 1], env.tx(i - 1));
      DownFromShrinks(sql, db, ms, i - 1, target, applied, env);
      DownFromShrinks(sql, r.db, ms, i - 1, target, applied, env);
    }
  }

  /** A DownTo that succeeds drops the record of every migration it reverts, and adds none. */
  lemma {:induction false} DownFromDrops<S>(sql: Engine<S>, db: Db<S>, ms: seq<Migration>, i: nat, target: int,
                                            applied: set<int>, env: Env, q: nat)
    requires q < i <= |ms| && Ascending(ms) && NonNegative(ms) && ms[q].version in applied
    requires target < ms[q].version && ms[q].down != "" && DownFrom(sql, db, ms, i, target, applied, env).ok
    ensures ms[q].version !in DownFrom(sql, db, ms, i, target, applied, env).db.rows
    decreases i
  {
    var m := ms[i - 1];
    var r := AfterRevert(sql, db, m, env.tx(i - 1));
    if q < i - 1 {
      assert ms[q].version < m.version;
      DownFromDrops(sql, if m.version in applied then r.db else db, ms, i - 1, target, applied, env, q);
    } else {
      DownFromShrinks(sql, r.db, ms, i - 1, target, applied, env);
    }
  }

  lemma {:induction false} NothingReverts<S>(sql: Engine<S>, db: Db<S>, ms: seq<Migration>, i: nat, target: int,
                                             env: Env)
    requires i <= |ms| && NonNegative(ms) && forall q | 0 <= q < i :: !Reverts(db.rows, ms, target, q)
    ensures DownFrom(sql, db, ms, i, target, db.rows.Keys, env) == Outcome(db, true)
  {
    if i > 0 {
      assert !Reverts(db.rows, ms, target, i - 1);
      NothingReverts(sql, db, ms, i - 1, target, env);
    }
  }

  /** Under the topmost record with an empty Down script, DownTo changes nothing exactly when nothing is left
      to revert. */
  lemma StuckExactly<S>(sql: Engine<S>, db: Db<S>, ms: seq<Migration>, p: nat, target: int)
    requires Ascending(ms) && NonNegative(ms) && p < |ms| && ms[p].down == "" && ms[p].version in db.rows
    requires forall q | p < q < |ms| :: ms[q].version !in db.rows
    requires DownFrom(sql, db, ms, p, target, db.rows.Keys, CALM).ok
    ensures DownFrom(sql, db, ms, p, target, db.rows.Keys, CALM).db == db <==> Unblocked(db.rows, ms, target)
  {
    if q :| 0 <= q < p && Reverts(db.rows, ms, target, q) {
      DownFromDrops(sql, db, ms, p, target, db.rows.Keys, CALM, q);
      assert !Unblocked(db.rows, ms, target);
    } else {
      NothingReverts(sql, db, ms, p, target, CALM);
      forall q, r | 0 <= q < r < |ms| && ms[q].version in db.rows && ms[r].version in db.rows
        ensures target < ms[q].version && ms[r].down == "" ==> ms[q].down == ""
      {
        assert !Reverts(db.rows, ms, target, q);
      }
    }
  }

  lemma UnblockedBelow(rows: Rows, ms: seq<Migration>, target: int, p: nat)
    requires DistinctVersions(ms) && p < |ms| && ms[p].down != "" && forall q | p < q < |ms| :: ms[q].version !in rows
    ensures Unblocked(rows - {ms[p].version}, ms, target) <==> Unblocked(rows, ms, target)
  {
    var less := rows - {ms[p].version};
    if Unblocked(less, ms, target) {
      forall q, r | 0 <= q < r < |ms| && ms[q].version in rows && ms[r].version in rows
        ensures target < ms[q].version && ms[r].down == "" ==> ms[q].down == ""
      {
        if r != p { assert ms[q].version in less && ms[r].version in less; }
      }
    }
  }

  /** The first of several Downs, when the top record has a Down script and DownTo gets through. */
  lemma OneDown<S>(sql: Engine<S>, db: Db<S>, ms: seq<Migration>, target: int, p: nat) returns (r: Outcome<S>)
    requires Ascending(ms) && NonNegative(ms) && AllRegistered(db.rows, ms) && p < |ms| && ms[p].down != ""
    requires ms[p].version in db.rows && target < ms[p].version == MaxVersion(db.rows.Keys, -1)
    requires p == LastWith(ms, |ms|, ms[p].version) && forall q | p < q < |ms| :: ms[q].version !in db.rows
    requires DownFrom(sql, db, ms, p + 1, target, db.rows.Keys, CALM) == AfterDownTo(sql, db, ms, target, CALM)
    requires AfterDownTo(sql, db, ms, target, CALM).ok
    ensures r.ok && r.db.rows == db.rows - {ms[p].version} && |r.db.rows| < |db.rows| && AllRegistered(r.db.rows, ms)
    ensures AfterDownTo(sql, db, ms, target, CALM) == AfterDownTo(sql, r.db, ms, target, CALM)
    ensures DownTimes(sql, db, ms, |Above(db.rows, target)|) == DownTimes(sql, r.db, ms, |Above(r.db.rows, target)|)
  {
    assert CALM.tx(p) == CALM_TX;
    r := AfterRevert(sql, db, ms[p], CALM_TX);
    RevertDropsRow(sql, db, ms[p], CALM_TX);
    DownRepeatedStep(sql, db, ms, target, p, r);
    assert AfterDown(sql, db, ms, CALM) == r;
  }

  lemma AgreesAtTarget<S>(sql: Engine<S>, db: Db<S>, ms: seq<Migration>, target: int)
    requires NonNegative(ms) && Above(db.rows, target) == {}
    ensures DownTimes(sql, db, ms, |Above(db.rows, target)|) == AfterDownTo(sql, db, ms, target, CALM).db
    ensures Unblocked(db.rows, ms, target)
  {
    assert forall v | v in db.rows :: v !in Above(db.rows, target);
    NothingAbove(sql, db, ms, |ms|, target, CALM);
  }

  /** The exact condition, when empty Down scripts are allowed and every other one goes through: Down, called
      once for every record above target, does what DownTo(target) does if and only if no empty Down script
      above target stands over one that is not empty. */
  lemma {:induction false} DownAgreesExactly<S>(sql: Engine<S>, db: Db<S>, ms: seq<Migration>, target: int)
    requires Ascending(ms) && NonNegative(ms) && AllRegistered(db.rows, ms)
    requires AfterDownTo(sql, db, ms, target, CALM).ok
    ensures DownTimes(sql, db, ms, |Above(db.rows, target)|) == AfterDownTo(sql, db, ms, target, CALM).db
            <==> Unblocked(db.rows, ms, target)
    decreases |db.rows|
  {
    if Above(db.rows, target) == {} {
      AgreesAtTarget(sql, db, ms, target);
    } else {
      var p := TopAbove(db.rows, ms, target);
      DownFromSkips(sql, db, ms, p + 1, |ms|, target, db.rows.Keys, CALM);
      if ms[p].down == "" {
        DownTimesStuck(sql, db, ms, |Above(db.rows, target)|);
        StuckExactly(sql, db, ms, p, target);
      } else {
        var r := OneDown(sql, db, ms, target, p);
        DownAgreesExactly(sql, r.db, ms, target);
        UnblockedBelow(db.rows, ms, target, p);
      }
    }
  }
}
