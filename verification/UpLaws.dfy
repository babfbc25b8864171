/** Up is resumable, repeatable and confluent under appending (internal/db/migrate.go:78-120). */
module UpLaws {
  import opened Text
  import opened Scripts
  import opened Migrations

  ghost predicate DistinctVersions(ms: seq<Migration>) {
    forall i, j | 0 <= i < j < |ms| :: ms[i].version != ms[j].version
  }

  ghost predicate DistinctNames(ms: seq<Migration>) {
    forall i, j | 0 <= i < j < |ms| :: ms[i].name != ms[j].name
  }

  /** No two migrations still to be applied share a name, and no recorded row carries the name of one. */
  ghost predicate NamesFree(rows: Rows, ms: seq<Migration>) {
    (forall i | 0 <= i < |ms| && ms[i].version !in rows :: !HasName(rows, ms[i].name)) &&
    forall i, j | 0 <= i < j < |ms| && ms[i].version !in rows && ms[j].version !in rows :: ms[i].name != ms[j].name
  }

  ghost predicate Compatible(rows: Rows, ms: seq<Migration>) {
    DistinctVersions(ms) && NamesFree(rows, ms)
  }

  /** A migration at a position from..to-1 that had no record carries this name. */
  ghost predicate Taken(rows: Rows, ms: seq<Migration>, name: string, from: nat, to: nat)
    requires to <= |ms|
  {
    exists i {:trigger ms[i].version in rows} | from <= i < to :: ms[i].version !in rows && ms[i].name == name
  }

  /** No migration still to be applied carries the recorded name of a registered version, and no two of them
      share a name. */
  ghost predicate Repeatable(rows: Rows, ms: seq<Migration>) {
    forall j | 0 <= j < |ms| ::
      if ms[j].version in rows then !Taken(rows, ms, rows[ms[j].version].name, 0, |ms|)
      else !Taken(rows, ms, ms[j].name, j + 1, |ms|)
  }

  /** The records that hold once the first k migrations are in: those of before, and one row for
      each of the first k that had none. */
  ghost function Recorded<S>(sql: Engine<S>, rows: Rows, ms: seq<Migration>, k: nat): Rows
    requires k <= |ms|
  {
    if k == 0 then rows
    else
      var r := Recorded(sql, rows, ms, k - 1);
      if ms[k - 1].version in rows then r else r[ms[k - 1].version := Record(sql, ms[k - 1])]
  }

  lemma {:induction false} RecordedKeys<S>(sql: Engine<S>, rows: Rows, ms: seq<Migration>, k: nat)
    requires k <= |ms|
    ensures var r := Recorded(sql, rows, ms, k);
            forall v :: v in r <==> v in rows || exists i | 0 <= i < k :: ms[i].version == v
    ensures var r := Recorded(sql, rows, ms, k);
            forall v | v in r :: if v in rows then r[v] == rows[v]
                                 else exists i | 0 <= i < k :: ms[i].version == v && r[v] == Record(sql, ms[i])
  {
    if k > 0 {
      RecordedKeys(sql, rows, ms, k - 1);
      var before, r := Recorded(sql, rows, ms, k - 1), Recorded(sql, rows, ms, k);
      var m := ms[k - 1];
      forall v ensures v in r <==> v in rows || exists i | 0 <= i < k :: ms[i].version == v {
        if v in r && v in before && v !in rows {
          var i :| 0 <= i < k - 1 && ms[i].version == v;
        }
      }
      forall v | v in r && v !in rows
        ensures exists i | 0 <= i < k :: ms[i].version == v && r[v] == Record(sql, ms[i])
      {
        if v != m.version {
          var i :| 0 <= i < k - 1 && ms[i].version == v && before[v] == Record(sql, ms[i]);
          assert r[v] == Record(sql, ms[i]);
        } else {
          assert r[v] == Record(sql, ms[k - 1]);
        }
      }
    }
  }

  lemma NoEviction<S>(sql: Engine<S>, rows: Rows, ms: seq<Migration>, k: nat)
    requires k < |ms| && Compatible(rows, ms) && ms[k].version !in rows
    ensures var r := Recorded(sql, rows, ms, k);
            Replace(r, ms[k].version, Record(sql, ms[k])) == r[ms[k].version := Record(sql, ms[k])]
    ensures ms[k].version !in Recorded(sql, rows, ms, k)
  {
    RecordedKeys(sql, rows, ms, k);
    var r := Recorded(sql, rows, ms, k);
    forall v | v in r ensures r[v].name != ms[k].name {
      if v !in rows {
        var i :| 0 <= i < k && ms[i].version == v && r[v] == Record(sql, ms[i]);
      }
    }
  }

  lemma AdvanceRecords<S>(sql: Engine<S>, rows: Rows, ms: seq<Migration>, k: nat, before: Outcome<S>, env: TxEnv)
    requires 0 < k <= |ms| && Compatible(rows, ms)
    requires before.ok ==> before.db.rows == Recorded(sql, rows, ms, k - 1)
    ensures var r := Advance(sql, before, ms[k - 1], rows.Keys, env);
            r.ok ==> r.db.rows == Recorded(sql, rows, ms, k)
  {
    if before.ok && ms[k - 1].version !in rows {
      NoEviction(sql, rows, ms, k - 1);
    }
  }

  /** While Up succeeds, INSERT OR REPLACE never evicts another row. */
  lemma {:induction false} UpRecords<S>(sql: Engine<S>, db: Db<S>, ms: seq<Migration>, k: nat, env: Env)
    requires k <= |ms| && Compatible(db.rows, ms)
    ensures var r := UpTo(sql, db, ms, k, db.rows.Keys, env);
            r.ok ==> r.db.rows == Recorded(sql, db.rows, ms, k)
  {
    if k > 0 {
      UpRecords(sql, db, ms, k - 1, env);
      AdvanceRecords(sql, db.rows, ms, k, UpTo(sql, db, ms, k - 1, db.rows.Keys, env), env.tx(k - 1));
    }
  }

  lemma {:induction false} TransactCalm<S>(sql: Engine<S>, db: Db<S>, script: string, write: Option<Rows>, env: TxEnv)
    ensures var r := Transact(sql, db, script, write, env);
            if r.ok then r == Transact(sql, db, script, write, CALM_TX) else r.db == db
  {
    FaultOnlyStops(sql, db.schema, Statements(script), env.failAt);
  }

  lemma AdvanceCalm<S>(sql: Engine<S>, before: Outcome<S>, m: Migration, applied: set<int>, env: TxEnv)
    ensures var r := Advance(sql, before, m, applied, env);
            if r.ok then before.ok && r == Advance(sql, before, m, applied, CALM_TX) else r.db == before.db
  {
    if before.ok && m.version !in applied {
      TransactCalm(sql, before.db, m.up, Some(Replace(before.db.rows, m.version, Record(sql, m))), env);
    }
  }

  /** What succeeds in any environment succeeds in a calm one, with the same effect. */
  lemma {:induction false} UpToCalm<S>(sql: Engine<S>, db: Db<S>, ms: seq<Migration>, k: nat, applied: set<int>,
                                       env: Env)
    requires k <= |ms|
    ensures UpTo(sql, db, ms, k, applied, env).ok
            ==> UpTo(sql, db, ms, k, applied, CALM) == UpTo(sql, db, ms, k, applied, env)
  {
    if k > 0 {
      UpToCalm(sql, db, ms, k - 1, applied, env);
      AdvanceCalm(sql, UpTo(sql, db, ms, k - 1, applied, env), ms[k - 1], applied, env.tx(k - 1));
      assert CALM.tx(k - 1) == CALM_TX;
    }
  }

  /** A failed Up stops at some position: the transactions before it are committed and nothing else is. */
  lemma {:induction false} UpStops<S>(sql: Engine<S>, db: Db<S>, ms: seq<Migration>, n: nat, applied: set<int>,
                                      env: Env)
      returns (j: nat)
    requires n <= |ms|
    ensures j <= n && UpTo(sql, db, ms, j, applied, env).ok
    ensures UpTo(sql, db, ms, n, applied, env).db == UpTo(sql, db, ms, j, applied, env).db
    ensures UpTo(sql, db, ms, n, applied, env).ok <==> j == n
  {
    if n == 0 {
      j := 0;
    } else {
      j := UpStops(sql, db, ms, n - 1, applied, env);
      AdvanceCalm(sql, UpTo(sql, db, ms, n - 1, applied, env), ms[n - 1], applied, env.tx(n - 1));
      if UpTo(sql, db, ms, n, applied, env).ok { j := n; }
    }
  }

  lemma {:induction false} UpOkBelow<S>(sql: Engine<S>, db: Db<S>, ms: seq<Migration>, i: nat, n: nat,
                                        applied: set<int>, env: Env)
    requires i <= n <= |ms| && UpTo(sql, db, ms, n, applied, env).ok
    ensures UpTo(sql, db, ms, i, applied, env).ok
  {
    if i < n {
      AdvanceCalm(sql, UpTo(sql, db, ms, n - 1, applied, env), ms[n - 1], applied, env.tx(n - 1));
      UpOkBelow(sql, db, ms, i, n - 1, applied, env);
    }
  }

  lemma {:induction false} UpToPrefix<S>(sql: Engine<S>, db: Db<S>, ms: seq<Migration>, ns: seq<Migration>, k: nat,
                                         applied: set<int>, env: Env)
    requires k <= |ms| && k <= |ns| && ms[..k] == ns[..k]
    ensures UpTo(sql, db, ms, k, applied, env) == UpTo(sql, db, ns, k, applied, env)
  {
    if k > 0 {
      assert ms[k - 1] == ms[..k][k - 1] == ns[..k][k - 1] == ns[k - 1];
      assert ms[..k - 1] == ms[..k][..k - 1] == ns[..k - 1];
      UpToPrefix(sql, db, ms, ns, k - 1, applied, env);
    }
  }

  /** If Up fails, exactly the migrations before some position j are in, schema and records alike. */
  lemma UpInterrupted<S>(sql: Engine<S>, db: Db<S>, ms: seq<Migration>, env: Env) returns (j: nat)
    ensures j <= |ms|
    ensures var whole := AfterUp(sql, db, ms[..j], CALM);
            whole.ok && AfterUp(sql, db, ms, env).db == whole.db
    ensures AfterUp(sql, db, ms, env).ok ==> j == |ms|
    ensures env.ready && !AfterUp(sql, db, ms, env).ok ==> j < |ms|
    ensures Compatible(db.rows, ms) ==> AfterUp(sql, db, ms, env).db.rows == Recorded(sql, db.rows, ms, j)
  {
    var applied := db.rows.Keys;
    if env.ready {
      j := UpStops(sql, db, ms, |ms|, applied, env);
    } else {
      j := 0;
    }
    UpToCalm(sql, db, ms, j, applied, env);
    UpToPrefix(sql, db, ms, ms[..j], j, applied, CALM);
    if Compatible(db.rows, ms) {
      UpRecords(sql, db, ms, j, env);
    }
  }

  /** Once the first j are in, Up passes over them without a write. */
  lemma {:induction false} UpSkips<S>(sql: Engine<S>, db: Db<S>, ms: seq<Migration>, k: nat, applied: set<int>,
                                      env: Env)
    requires k <= |ms| && forall i | 0 <= i < k :: ms[i].version in applied
    ensures UpTo(sql, db, ms, k, applied, env) == Outcome(db, true)
  {
    if k > 0 {
      UpSkips(sql, db, ms, k - 1, applied, env);
    }
  }

  lemma {:induction false} UpAgreesFrom<S>(sql: Engine<S>, db: Db<S>, db': Db<S>, ms: seq<Migration>, j: nat, k: nat,
                                           applied: set<int>, applied': set<int>, env: Env)
    requires j <= k <= |ms|
    requires UpTo(sql, db, ms, j, applied, env) == UpTo(sql, db', ms, j, applied', env)
    requires forall i | j <= i < |ms| :: ms[i].version in applied <==> ms[i].version in applied'
    ensures UpTo(sql, db, ms, k, applied, env) == UpTo(sql, db', ms, k, applied', env)
  {
    if k > j {
      UpAgreesFrom(sql, db, db', ms, j, k - 1, applied, applied', env);
    }
  }

  /** Once the first k migrations are in, the j-th is recorded if it was before and its recorded name was not taken
      since, or if it was applied and its name was not taken again. */
  ghost predicate Present(before: Rows, ms: seq<Migration>, k: nat, rows: Rows, j: nat)
    requires k <= |ms| && j < |ms|
  {
    var v := ms[j].version;
    if v in before then
      (v in rows <==> !Taken(before, ms, before[v].name, 0, k)) && (v in rows ==> rows[v] == before[v])
    else if j < k then
      (v in rows <==> !Taken(before, ms, ms[j].name, j + 1, k)) && (v in rows ==> rows[v].name == ms[j].name)
    else v !in rows
  }

  lemma TakenStep(rows: Rows, ms: seq<Migration>, name: string, from: nat, k: nat)
    requires 0 < k <= |ms|
    ensures Taken(rows, ms, name, from, k) <==>
            Taken(rows, ms, name, from, k - 1) || (from < k && ms[k - 1].version !in rows && ms[k - 1].name == name)
  {
    if from < k && ms[k - 1].version !in rows && ms[k - 1].name == name {
      assert ms[k - 1].version !in rows;
    }
  }

  lemma PresentStep<S>(sql: Engine<S>, before: Rows, ms: seq<Migration>, k: nat, rows: Rows, j: nat)
    requires 0 < k <= |ms| && j < |ms| && DistinctVersions(ms) && Present(before, ms, k - 1, rows, j)
    ensures var m := ms[k - 1];
            Present(before, ms, k, if m.version in before then rows else Replace(rows, m.version, Record(sql, m)), j)
  {
    var v := ms[j].version;
    if v in before {
      TakenStep(before, ms, before[v].name, 0, k);
    } else if j < k {
      TakenStep(before, ms, ms[j].name, j + 1, k);
    }
  }

  ghost predicate PresentIf<S>(before: Rows, ms: seq<Migration>, k: nat, r: Outcome<S>, j: nat)
    requires k <= |ms| && j < |ms|
  {
    r.ok ==> Present(before, ms, k, r.db.rows, j)
  }

  lemma StartPresent<S>(db: Db<S>, ms: seq<Migration>, j: nat)
    requires j < |ms|
    ensures PresentIf(db.rows, ms, 0, Outcome(db, true), j)
  {
  }

  lemma AdvancePresent<S>(sql: Engine<S>, rows: Rows, ms: seq<Migration>, k: nat, before: Outcome<S>, env: TxEnv,
                          j: nat)
    requires 0 < k <= |ms| && j < |ms| && DistinctVersions(ms) && PresentIf(rows, ms, k - 1, before, j)
    ensures PresentIf(rows, ms, k, Advance(sql, before, ms[k - 1], rows.Keys, env), j)
  {
    if before.ok {
      PresentStep(sql, rows, ms, k, before.db.rows, j);
    }
  }

  lemma {:induction false} UpPresence<S>(sql: Engine<S>, db: Db<S>, ms: seq<Migration>, k: nat, env: Env, j: nat)
    requires k <= |ms| && j < |ms| && DistinctVersions(ms)
    ensures PresentIf(db.rows, ms, k, UpTo(sql, db, ms, k, db.rows.Keys, env), j)
  {
    if k == 0 {
      StartPresent(db, ms, j);
    } else {
      UpPresence(sql, db, ms, k - 1, env, j);
      AdvancePresent(sql, db.rows, ms, k, UpTo(sql, db, ms, k - 1, db.rows.Keys, env), env.tx(k - 1), j);
    }
  }

  lemma NotTakenEarlier(rows: Rows, ms: seq<Migration>, name: string, from: nat, k: nat)
    requires k <= |ms| && !Taken(rows, ms, name, from, |ms|)
    ensures !Taken(rows, ms, name, from, k)
  {
  }

  /** When re-running is safe, the registered versions recorded after the first j are the old ones and the first j. */
  lemma PresentAfter<S>(sql: Engine<S>, db: Db<S>, ms: seq<Migration>, j: nat, env: Env)
    requires j <= |ms| && DistinctVersions(ms) && Repeatable(db.rows, ms)
    requires UpTo(sql, db, ms, j, db.rows.Keys, env).ok
    ensures forall i | 0 <= i < |ms| ::
              ms[i].version in UpTo(sql, db, ms, j, db.rows.Keys, env).db.rows <==> i < j || ms[i].version in db.rows
  {
    forall i | 0 <= i < |ms|
      ensures ms[i].version in UpTo(sql, db, ms, j, db.rows.Keys, env).db.rows <==> i < j || ms[i].version in db.rows
    {
      UpPresence(sql, db, ms, j, env, i);
      if ms[i].version in db.rows {
        NotTakenEarlier(db.rows, ms, db.rows[ms[i].version].name, 0, j);
      } else if i < j {
        NotTakenEarlier(db.rows, ms, ms[i].name, i + 1, j);
      }
    }
  }

  /** Starting over with the first j recorded makes no difference. */
  lemma UpResumes<S>(sql: Engine<S>, db: Db<S>, ms: seq<Migration>, j: nat)
    requires j <= |ms| && DistinctVersions(ms) && Repeatable(db.rows, ms)
    requires UpTo(sql, db, ms, j, db.rows.Keys, CALM).ok
    ensures var mid := UpTo(sql, db, ms, j, db.rows.Keys, CALM).db;
            UpTo(sql, mid, ms, |ms|, mid.rows.Keys, CALM) == UpTo(sql, db, ms, |ms|, db.rows.Keys, CALM)
  {
    var mid := UpTo(sql, db, ms, j, db.rows.Keys, CALM).db;
    PresentAfter(sql, db, ms, j, CALM);
    UpSkips(sql, mid, ms, j, mid.rows.Keys, CALM);
    UpAgreesFrom(sql, db, mid, ms, j, |ms|, db.rows.Keys, mid.rows.Keys, CALM);
  }

  /** Confluence: whatever happened to an Up over a, a later Up over a + b ends exactly where one
      uninterrupted Up over a + b would have, and fails exactly when it would have. */
  lemma UpConfluent<S>(sql: Engine<S>, db: Db<S>, a: seq<Migration>, b: seq<Migration>, env: Env)
    requires DistinctVersions(a + b) && Repeatable(db.rows, a + b)
    ensures AfterUp(sql, AfterUp(sql, db, a, env).db, a + b, CALM) == AfterUp(sql, db, a + b, CALM)
  {
    var applied, ms := db.rows.Keys, a + b;
    if env.ready {
      var j := UpStops(sql, db, a, |a|, applied, env);
      UpToCalm(sql, db, a, j, applied, env);
      assert a[..j] == ms[..j];
      UpToPrefix(sql, db, a, ms, j, applied, CALM);
      UpResumes(sql, db, ms, j);
    }
  }

  /** Resumption: after a failed Up, a later one that succeeds, in any environment, reaches the state
      of one uninterrupted Up; and an Up after a success changes nothing and succeeds. */
  lemma UpResumable<S>(sql: Engine<S>, db: Db<S>, ms: seq<Migration>, first: Env, later: Env)
    requires DistinctVersions(ms) && Repeatable(db.rows, ms)
    ensures var mid := AfterUp(sql, db, ms, first);
            var end := AfterUp(sql, mid.db, ms, later);
            (end.ok ==> end == AfterUp(sql, db, ms, CALM)) &&
            (mid.ok && later.ready ==> end == Outcome(mid.db, true))
  {
    var mid := AfterUp(sql, db, ms, first);
    assert ms + [] == ms;
    UpConfluent(sql, db, ms, [], first);
    UpToCalm(sql, mid.db, ms, |ms|, mid.db.rows.Keys, later);
    if mid.ok {
      PresentAfter(sql, db, ms, |ms|, first);
      UpSkips(sql, mid.db, ms, |ms|, mid.db.rows.Keys, later);
    }
  }

  // ---------- Exactly when

  /** What is recorded when a successful Up ends is every registered version exactly when re-running is safe. */
  lemma AllPresentExactly<S>(sql: Engine<S>, db: Db<S>, ms: seq<Migration>, env: Env)
    requires DistinctVersions(ms) && AfterUp(sql, db, ms, env).ok
    ensures (forall i | 0 <= i < |ms| :: ms[i].version in AfterUp(sql, db, ms, env).db.rows)
            <==> Repeatable(db.rows, ms)
  {
    forall j | 0 <= j < |ms|
      ensures ms[j].version in AfterUp(sql, db, ms, env).db.rows <==>
              if ms[j].version in db.rows then !Taken(db.rows, ms, db.rows[ms[j].version].name, 0, |ms|)
              else !Taken(db.rows, ms, ms[j].name, j + 1, |ms|)
    {
      UpPresence(sql, db, ms, |ms|, env, j);
    }
  }

  /** An Up that applies something leaves a version recorded that was not. */
  lemma {:induction false} UpAddsLast<S>(sql: Engine<S>, db: Db<S>, ms: seq<Migration>, k: nat, env: Env)
    requires k <= |ms| && UpTo(sql, db, ms, k, db.rows.Keys, env).ok
    requires exists i {:trigger ms[i].version in db.rows} | 0 <= i < k :: ms[i].version !in db.rows
    ensures exists v | v in UpTo(sql, db, ms, k, db.rows.Keys, env).db.rows :: v !in db.rows
  {
    var before := UpTo(sql, db, ms, k - 1, db.rows.Keys, env);
    AdvanceCalm(sql, before, ms[k - 1], db.rows.Keys, env.tx(k - 1));
    if ms[k - 1].version in db.rows {
      UpAddsLast(sql, db, ms, k - 1, env);
    } else {
      assert ms[k - 1].version in UpTo(sql, db, ms, k, db.rows.Keys, env).db.rows;
    }
  }

  /** The exact condition for 'a repeated Up changes nothing'. */
  lemma UpRepeatsExactly<S>(sql: Engine<S>, db: Db<S>, ms: seq<Migration>, env: Env)
    requires DistinctVersions(ms) && AfterUp(sql, db, ms, env).ok
    ensures var mid := AfterUp(sql, db, ms, env);
            AfterUp(sql, mid.db, ms, CALM) == mid <==> Repeatable(db.rows, ms)
  {
    var mid := AfterUp(sql, db, ms, env);
    AllPresentExactly(sql, db, ms, env);
    if Repeatable(db.rows, ms) {
      UpSkips(sql, mid.db, ms, |ms|, mid.db.rows.Keys, CALM);
    } else {
      var i :| 0 <= i < |ms| && ms[i].version !in mid.db.rows;
      assert ms[i].version !in mid.db.rows;
      if AfterUp(sql, mid.db, ms, CALM).ok {
        UpAddsLast(sql, mid.db, ms, |ms|, CALM);
      }
    }
  }

  /** The exact condition for confluence: when one uninterrupted Up goes through, stopping it anywhere and starting
      over makes no difference if and only if re-running is safe. */
  lemma UpConfluentExactly<S>(sql: Engine<S>, db: Db<S>, ms: seq<Migration>)
    requires DistinctVersions(ms) && AfterUp(sql, db, ms, CALM).ok
    ensures (forall j {:trigger ms[..j]} | 0 <= j <= |ms| ::
               AfterUp(sql, AfterUp(sql, db, ms[..j], CALM).db, ms, CALM) == AfterUp(sql, db, ms, CALM))
            <==> Repeatable(db.rows, ms)
  {
    if Repeatable(db.rows, ms) {
      forall j {:trigger ms[..j]} | 0 <= j <= |ms|
        ensures AfterUp(sql, AfterUp(sql, db, ms[..j], CALM).db, ms, CALM) == AfterUp(sql, db, ms, CALM)
      {
        assert ms[..j] + ms[j..] == ms;
        UpConfluent(sql, db, ms[..j], ms[j..], CALM);
      }
    } else {
      UpRepeatsExactly(sql, db, ms, CALM);
      assert ms[..|ms|] == ms;
    }
  }
}
