/** Which telemetry rows survive, and what the newest-first queries return
    (modules/telemetry/storage.go:26-69, modules/telemetry/module.go:198-269). */
module RetentionLaws {
  import opened Text
  import opened Store
  import opened StoreRuns
  import StoreLaws

  // ---------- Survival in every run

  /** The action removes the row: its device is deleted, or a prune goes through with a later cutoff. */
  predicate Removes(ttl: int, a: Action, row: Telemetry) {
    (a.Delete? && a.ok && a.id == row.device) || (a.PruneAt? && a.ok && row.ts < a.now - ttl)
  }

  predicate Survives(ttl: int, row: Telemetry, since: seq<Action>) {
    forall i | 0 <= i < |since| :: !Removes(ttl, since[i], row)
  }

  /** The cutoff of the last prune that went through. */
  function LastCutoff(ttl: int, since: seq<Action>): Option<int> {
    if since == [] then None
    else
      var a := since[|since| - 1];
      if a.PruneAt? && a.ok then Some(a.now - ttl) else LastCutoff(ttl, since[..|since| - 1])
  }

  ghost predicate PruneClock(since: seq<Action>) {
    forall i, j | 0 <= i < j < |since| && since[i].PruneAt? && since[j].PruneAt? :: since[i].now <= since[j].now
  }

  ghost predicate NoDeletions(since: seq<Action>) {
    forall i | 0 <= i < |since| :: !since[i].Delete?
  }

  lemma {:induction false} LastPrune(ttl: int, since: seq<Action>) returns (i: nat)
    requires LastCutoff(ttl, since).Some?
    ensures i < |since| && since[i].PruneAt? && since[i].ok && LastCutoff(ttl, since).value == since[i].now - ttl
  {
    var n := |since| - 1;
    if since[n].PruneAt? && since[n].ok {
      i := n;
    } else {
      i := LastPrune(ttl, since[..n]);
    }
  }

  /** With a clock that does not run backwards and no device deleted, only the last cutoff matters. */
  lemma {:induction false} LastCutoffDecides(ttl: int, row: Telemetry, since: seq<Action>)
    requires PruneClock(since) && NoDeletions(since)
    ensures Survives(ttl, row, since) <==>
            LastCutoff(ttl, since).None? || row.ts >= LastCutoff(ttl, since).value
  {
    if since != [] {
      var n := |since| - 1;
      var front, a := since[..n], since[n];
      LastCutoffDecides(ttl, row, front);
      assert Survives(ttl, row, since) <==> Survives(ttl, row, front) && !Removes(ttl, a, row) by {
        assert forall i | 0 <= i < n :: front[i] == since[i];
      }
      if a.PruneAt? && a.ok && LastCutoff(ttl, front).Some? {
        var i := LastPrune(ttl, front);
        assert since[i].now <= a.now;
      }
    }
  }

  ghost predicate Numbered(t: Tables) {
    forall r {:trigger r in t.telemetry} | r in t.telemetry :: r.id < t.nextRow
  }

  /** What one action does to the telemetry table, seen from one row that has a number already. */
  lemma RowStep(ttl: int, w: World, a: Action, row: Telemetry)
    requires row.id < w.t.nextRow && (row in w.t.telemetry ==> row.device in w.t.devices)
    ensures row in TablesAfter(ttl, w, a).telemetry <==> row in w.t.telemetry && !Removes(ttl, a, row)
    ensures w.t.nextRow <= TablesAfter(ttl, w, a).nextRow
  {
    match a
    case Delete(id, _) => StoreLaws.KeptExactly(w.t.telemetry, NotOf(id), row);
    case PruneAt(now, _) => StoreLaws.KeptExactly(w.t.telemetry, Since(now - ttl), row);
    case _ =>
  }

  lemma NumberedStep(ttl: int, w: World, a: Action)
    requires Numbered(w.t)
    ensures Numbered(TablesAfter(ttl, w, a))
  {
    var u := TablesAfter(ttl, w, a);
    forall r {:trigger r in u.telemetry} | r in u.telemetry ensures r.id < u.nextRow {
      match a {
        case Delete(id, _) => StoreLaws.KeptExactly(w.t.telemetry, NotOf(id), r);
        case PruneAt(now, _) => StoreLaws.KeptExactly(w.t.telemetry, Since(now - ttl), r);
        case _ => assert r in w.t.telemetry || r.id == w.t.nextRow;
      }
    }
  }

  lemma {:induction false} StaysNumbered(ttl: int, run: seq<Action>)
    ensures Numbered(After(ttl, run).t)
  {
    if run != [] {
      StaysNumbered(ttl, run[..|run| - 1]);
      NumberedStep(ttl, After(ttl, run[..|run| - 1]), run[|run| - 1]);
    }
  }

  lemma SurvivesOneMore(ttl: int, row: Telemetry, run: seq<Action>, from: nat, to: nat)
    requires from < to <= |run|
    ensures Survives(ttl, row, run[from..to]) <==>
            Survives(ttl, row, run[from..to - 1]) && !Removes(ttl, run[to - 1], row)
  {
    var longer, shorter := run[from..to], run[from..to - 1];
    assert longer == shorter + [run[to - 1]];
    if Survives(ttl, row, longer) {
      forall i | 0 <= i < |shorter| ensures !Removes(ttl, shorter[i], row) { assert longer[i] == shorter[i]; }
      assert longer[|shorter|] == run[to - 1];
    }
  }

  lemma {:induction false} SurvivesFrom(ttl: int, run: seq<Action>, row: Telemetry, from: nat, to: nat)
    requires from <= to <= |run| && row.id < After(ttl, run[..from]).t.nextRow
    ensures row.id < After(ttl, run[..to]).t.nextRow
    ensures row in After(ttl, run[..to]).t.telemetry <==>
            row in After(ttl, run[..from]).t.telemetry && Survives(ttl, row, run[from..to])
  {
    if from < to {
      var w, a := After(ttl, run[..to - 1]), run[to - 1];
      SurvivesFrom(ttl, run, row, from, to - 1);
      assert run[..to][..to - 1] == run[..to - 1] && run[..to][to - 1] == a;
      StoreLaws.RowsRefer(ttl, run[..to - 1]);
      RowStep(ttl, w, a, row);
      SurvivesOneMore(ttl, row, run, from, to);
    }
  }

  /** Retention. After any interleaving of all the writers, a row that action i stored is there exactly when
      no later action deleted its device or pruned with a cutoff above its timestamp. */
  lemma PresentExactlyIfSurvives(ttl: int, run: seq<Action>, i: nat, row: Telemetry)
    requires i < |run| && row in After(ttl, run[..i + 1]).t.telemetry
    ensures row in After(ttl, run).t.telemetry <==> Survives(ttl, row, run[i + 1..])
  {
    StaysNumbered(ttl, run[..i + 1]);
    SurvivesFrom(ttl, run, row, i + 1, |run|);
    assert run[..|run|] == run && run[i + 1..|run|] == run[i + 1..];
  }

  /** With a clock that does not run backwards and no device deleted since, that is: exactly when its
      timestamp is not below the last cutoff applied since its insertion. */
  lemma PresentExactlyIfRecent(ttl: int, run: seq<Action>, i: nat, row: Telemetry)
    requires i < |run| && row in After(ttl, run[..i + 1]).t.telemetry
    requires PruneClock(run[i + 1..]) && NoDeletions(run[i + 1..])
    ensures var cutoff := LastCutoff(ttl, run[i + 1..]);
            row in After(ttl, run).t.telemetry <==> cutoff.None? || row.ts >= cutoff.value
  {
    PresentExactlyIfSurvives(ttl, run, i, row);
    LastCutoffDecides(ttl, row, run[i + 1..]);
  }

  // ---------- Queries

  ghost predicate Descending(s: seq<Telemetry>) {
    forall i, j | 0 <= i < j < |s| :: s[i].ts >= s[j].ts
  }

  lemma TailDescends(s: seq<Telemetry>)
    requires Descending(s) && s != []
    ensures Descending(s[1..]) && (|s| > 1 ==> s[0].ts >= s[1].ts)
    ensures forall i | 0 <= i < |s| :: s[i].ts <= s[0].ts
  {
  }

  lemma HeadBounds(head: Telemetry, tail: seq<Telemetry>)
    requires Descending(tail) && (tail != [] ==> tail[0].ts <= head.ts)
    ensures Descending([head] + tail)
  {
  }

  lemma {:induction false} InsertDescends(x: Telemetry, s: seq<Telemetry>)
    requires Descending(s)
    ensures Descending(InsertNewest(x, s))
    ensures InsertNewest(x, s)[0] == if s == [] || x.ts >= s[0].ts then x else s[0]
  {
    if s == [] || x.ts >= s[0].ts {
      HeadBounds(x, s);
    } else {
      TailDescends(s);
      InsertDescends(x, s[1..]);
      HeadBounds(s[0], InsertNewest(x, s[1..]));
    }
  }

  lemma {:induction false} InsertHolds(x: Telemetry, s: seq<Telemetry>)
    ensures multiset(InsertNewest(x, s)) == multiset(s) + multiset{x}
  {
    if s != [] && x.ts < s[0].ts {
      InsertHolds(x, s[1..]);
      assert s == [s[0]] + s[1..];
    }
  }

  lemma {:induction false} NewestDescends(rows: seq<Telemetry>)
    ensures Descending(NewestFirst(rows))
  {
    if rows != [] {
      NewestDescends(rows[1..]);
      InsertDescends(rows[0], NewestFirst(rows[1..]));
    }
  }

  lemma {:induction false} NewestHolds(rows: seq<Telemetry>)
    ensures multiset(NewestFirst(rows)) == multiset(rows)
  {
    if rows != [] {
      NewestHolds(rows[1..]);
      InsertHolds(rows[0], NewestFirst(rows[1..]));
      assert rows == [rows[0]] + rows[1..];
    }
  }

  /** The query order is newest first, and holds every row exactly once. */
  lemma NewestFirstSorts(rows: seq<Telemetry>)
    ensures Descending(NewestFirst(rows)) && multiset(NewestFirst(rows)) == multiset(rows)
  {
    NewestDescends(rows);
    NewestHolds(rows);
  }

  /** The rows a query may return: the device's, of the organisation if one is given. */
  ghost predicate Asked(t: Tables, device: string, org: string, r: Telemetry) {
    r in t.telemetry && r.device == device && (org == "" || r.org == org)
  }

  lemma AskedExactly(t: Tables, device: string, org: string, sorted: seq<Telemetry>, r: Telemetry)
    requires multiset(sorted) == multiset(KeepTelemetry(t.telemetry, Wanted(device, org)))
    ensures r in sorted <==> Asked(t, device, org, r)
  {
    StoreLaws.KeptExactly(t.telemetry, Wanted(device, org), r);
    assert r in sorted <==> r in multiset(sorted);
  }

  lemma {:induction false} KeptAsOften(rows: seq<Telemetry>, keep: Telemetry -> bool, r: Telemetry)
    ensures keep(r) ==> multiset(KeepTelemetry(rows, keep))[r] == multiset(rows)[r]
  {
    if rows != [] {
      KeptAsOften(rows[1..], keep, r);
      assert rows == [rows[0]] + rows[1..];
    }
  }

  /** The query returns the first limit rows of a list that has all rows asked for, each as often as the table
      has it and no others, newest first. */
  lemma QueryReturnsNewest(t: Tables, device: string, org: string, limit: int) returns (all: seq<Telemetry>)
    ensures Descending(all) && forall r :: r in all <==> Asked(t, device, org, r)
    ensures forall r {:trigger Asked(t, device, org, r)} | Asked(t, device, org, r) ::
              multiset(all)[r] == multiset(t.telemetry)[r]
    ensures var found := QueryTelemetry(t, device, org, limit);
            found <= all && |found| == if 0 <= limit < |all| then limit else |all|
  {
    var kept := KeepTelemetry(t.telemetry, Wanted(device, org));
    all := NewestFirst(kept);
    NewestFirstSorts(kept);
    forall r ensures r in all <==> Asked(t, device, org, r) {
      AskedExactly(t, device, org, all, r);
    }
    forall r {:trigger Asked(t, device, org, r)} | Asked(t, device, org, r)
      ensures multiset(all)[r] == multiset(t.telemetry)[r]
    {
      KeptAsOften(t.telemetry, Wanted(device, org), r);
    }
  }

  lemma KeepCons(x: Telemetry, s: seq<Telemetry>, f: Telemetry -> bool)
    ensures KeepTelemetry([x] + s, f) == if f(x) then [x] + KeepTelemetry(s, f) else KeepTelemetry(s, f)
  {
    assert ([x] + s)[1..] == s;
    assert [] + KeepTelemetry(s, f) == KeepTelemetry(s, f);
  }

  lemma {:induction false} KeepTwice(rows: seq<Telemetry>, f: Telemetry -> bool, g: Telemetry -> bool)
    ensures KeepTelemetry(KeepTelemetry(rows, f), g) == KeepTelemetry(KeepTelemetry(rows, g), f)
  {
    if rows != [] {
      KeepTwice(rows[1..], f, g);
      KeepCons(rows[0], KeepTelemetry(rows[1..], f), g);
      KeepCons(rows[0], KeepTelemetry(rows[1..], g), f);
      assert [] + KeepTelemetry(rows[1..], f) == KeepTelemetry(rows[1..], f);
      assert [] + KeepTelemetry(rows[1..], g) == KeepTelemetry(rows[1..], g);
    }
  }

  /** One turn of a loop that collects what is kept. */
  lemma KeepGrows(rows: seq<Telemetry>, i: nat, f: Telemetry -> bool, found: seq<Telemetry>)
    requires i < |rows|
    ensures found + KeepTelemetry(rows[i..], f)
            == (if f(rows[i]) then found + [rows[i]] else found) + KeepTelemetry(rows[i + 1..], f)
  {
    var rest := KeepTelemetry(rows[i + 1..], f);
    assert rows[i..][1..] == rows[i + 1..];
    if f(rows[i]) {
      assert found + ([rows[i]] + rest) == found + [rows[i]] + rest;
    } else {
      assert [] + rest == rest;
    }
  }

  /** The kept part of a descending list is a prefix of it: this many rows. */
  function Recent(s: seq<Telemetry>, cutoff: int): (n: nat)
    ensures n <= |s|
  {
    if s == [] || s[0].ts < cutoff then 0 else 1 + Recent(s[1..], cutoff)
  }

  lemma {:induction false} KeepIsPrefix(s: seq<Telemetry>, cutoff: int)
    requires Descending(s)
    ensures KeepTelemetry(s, Since(cutoff)) == s[..Recent(s, cutoff)]
  {
    if s != [] {
      KeepIsPrefix(s[1..], cutoff);
      if s[0].ts >= cutoff {
        assert s[..Recent(s, cutoff)] == [s[0]] + s[1..][..Recent(s[1..], cutoff)];
      } else {
        assert Recent(s[1..], cutoff) == 0;
      }
    }
  }

  lemma {:induction false} RecentOfPrefix(s: seq<Telemetry>, cutoff: int, k: nat)
    requires k <= |s|
    ensures Recent(s[..k], cutoff) == if k <= Recent(s, cutoff) then k else Recent(s, cutoff)
  {
    if k > 0 && s[0].ts >= cutoff {
      RecentOfPrefix(s[1..], cutoff, k - 1);
      assert s[..k][1..] == s[1..][..k - 1];
    }
  }

  lemma LimitKeep(s: seq<Telemetry>, cutoff: int, limit: int)
    requires Descending(s)
    ensures KeepTelemetry(Limit(s, limit), Since(cutoff)) == Limit(KeepTelemetry(s, Since(cutoff)), limit)
  {
    KeepIsPrefix(s, cutoff);
    if 0 <= limit < |s| {
      assert Descending(s[..limit]);
      KeepIsPrefix(s[..limit], cutoff);
      RecentOfPrefix(s, cutoff, limit);
    }
  }

  lemma {:induction false} KeptBelow(s: seq<Telemetry>, f: Telemetry -> bool, bound: int)
    requires forall i | 0 <= i < |s| :: s[i].ts <= bound
    ensures KeepTelemetry(s, f) != [] ==> KeepTelemetry(s, f)[0].ts <= bound
  {
    if s != [] { KeptBelow(s[1..], f, bound); }
  }

  lemma {:induction false} InsertKeep(x: Telemetry, s: seq<Telemetry>, f: Telemetry -> bool)
    requires Descending(s)
    ensures KeepTelemetry(InsertNewest(x, s), f) ==
            if f(x) then InsertNewest(x, KeepTelemetry(s, f)) else KeepTelemetry(s, f)
  {
    if s == [] || x.ts >= s[0].ts {
      KeepCons(x, s, f);
      if s != [] {
        TailDescends(s);
        KeptBelow(s, f, x.ts);
      }
    } else {
      TailDescends(s);
      InsertKeep(x, s[1..], f);
      KeepCons(s[0], InsertNewest(x, s[1..]), f);
      KeepCons(s[0], s[1..], f);
      assert s == [s[0]] + s[1..];
      assert ([s[0]] + KeepTelemetry(s[1..], f))[1..] == KeepTelemetry(s[1..], f);
    }
  }

  lemma {:induction false} NewestKeep(rows: seq<Telemetry>, f: Telemetry -> bool)
    ensures NewestFirst(KeepTelemetry(rows, f)) == KeepTelemetry(NewestFirst(rows), f)
  {
    if rows != [] {
      NewestKeep(rows[1..], f);
      NewestDescends(rows[1..]);
      InsertKeep(rows[0], NewestFirst(rows[1..]), f);
      var rest := KeepTelemetry(rows[1..], f);
      if f(rows[0]) {
        assert ([rows[0]] + rest)[1..] == rest;
      } else {
        assert [] + rest == rest;
      }
    }
  }

  /** Pruning commutes with the query: the newest k of the rows kept are the kept among the newest k. */
  lemma PruneCommutesWithQuery(t: Tables, cutoff: int, device: string, org: string, limit: int)
    ensures QueryTelemetry(Prune(t, cutoff, true), device, org, limit)
            == KeepTelemetry(QueryTelemetry(t, device, org, limit), Since(cutoff))
  {
    var wanted := KeepTelemetry(t.telemetry, Wanted(device, org));
    KeepTwice(t.telemetry, Since(cutoff), Wanted(device, org));
    NewestKeep(wanted, Since(cutoff));
    NewestDescends(wanted);
    LimitKeep(NewestFirst(wanted), cutoff, limit);
  }

  /** A row with the largest timestamp, the first of them in row order: one pass, no sorting. */
  function Newest(rows: seq<Telemetry>): (r: Option<Telemetry>)
    ensures r.None? <==> rows == []
    ensures r.Some? ==> r.value in rows && forall x | x in rows :: x.ts <= r.value.ts
  {
    if rows == [] then None
    else
      var rest := Newest(rows[1..]);
      if rest.None? || rows[0].ts >= rest.value.ts then Some(rows[0]) else rest
  }

  lemma {:induction false} NewestIsHead(rows: seq<Telemetry>)
    requires rows != []
    ensures NewestFirst(rows) != [] && Newest(rows) == Some(NewestFirst(rows)[0])
  {
    if |rows| > 1 {
      NewestIsHead(rows[1..]);
    }
  }

  /** handleLatest, whose statement differs only in LIMIT 1, finds the newest matching row, or none. */
  lemma LatestIsLimitOne(t: Tables, device: string, org: string)
    ensures var newest := Newest(KeepTelemetry(t.telemetry, Wanted(device, org)));
            QueryTelemetry(t, device, org, 1) == if newest.None? then [] else [newest.value]
  {
    var wanted := KeepTelemetry(t.telemetry, Wanted(device, org));
    if wanted != [] {
      NewestIsHead(wanted);
    }
  }
}
