/** The worker pool that registers devices, as interleaved steps (cmd/simload/main.go:108-167). */
module RegistrationPool {
  import opened Sums

  /** A worker between jobs, in registerDevice, holding an answer it has not delivered, or returned.
      An answer with an empty id is an error: registerDevice never returns an empty id without one. */
  datatype Worker = Idle | Busy(idx: nat) | Holding(idx: nat, id: string) | Returned

  datatype Answer = Answer(idx: nat, id: string)

  /** n is *devices, the capacity of both channels; next is the feeding loop's counter; counted remembers
      which answers the collecting loop has taken. */
  datatype Pool = Pool(
    n: nat, next: nat, closed: bool, jobs: seq<nat>, workers: seq<Worker>, results: seq<Answer>,
    counted: seq<nat>, registered: nat, errors: nat, deviceIDs: seq<string>)

  datatype Action =
    | Feed | CloseJobs | Take(w: nat) | Finish(w: nat, id: string) | Deliver(w: nat) | Return(w: nat) | Collect

  function Start(n: nat, concurrency: nat): Pool {
    Pool(n, 0, false, [], seq(concurrency, i => Idle), [], [], 0, 0, seq(n, i => ""))
  }

  /** Whether the goroutine concerned can take this step now: a send needs room, a receive a message. */
  predicate Enabled(p: Pool, a: Action) {
    match a
    case Feed => p.next < p.n && !p.closed && |p.jobs| < p.n
    case CloseJobs => p.next == p.n && !p.closed
    case Take(w) => w < |p.workers| && p.workers[w].Idle? && p.jobs != []
    case Finish(w, _) => w < |p.workers| && p.workers[w].Busy?
    case Deliver(w) => w < |p.workers| && p.workers[w].Holding? && |p.results| < p.n
    case Return(w) => w < |p.workers| && p.workers[w].Idle? && p.jobs == [] && p.closed
    case Collect => p.closed && p.results != [] && p.results[0].idx < |p.deviceIDs|
  }

  function Step(p: Pool, a: Action): Pool
    requires Enabled(p, a)
  {
    match a
    case Feed => p.(jobs := p.jobs + [p.next], next := p.next + 1)
    case CloseJobs => p.(closed := true)
    case Take(w) => p.(workers := p.workers[w := Busy(p.jobs[0])], jobs := p.jobs[1..])
    case Finish(w, id) => p.(workers := p.workers[w := Holding(p.workers[w].idx, id)])
    case Deliver(w) =>
      p.(results := p.results + [Answer(p.workers[w].idx, p.workers[w].id)], workers := p.workers[w := Idle])
    case Return(w) => p.(workers := p.workers[w := Returned])
    case Collect =>
      var r := p.results[0];
      var q := p.(results := p.results[1..], counted := p.counted + [r.idx]);
      if r.id == "" then q.(errors := q.errors + 1)
      else q.(registered := q.registered + 1, deviceIDs := q.deviceIDs[r.idx := r.id])
  }

  // ---------- Where the indices are

  function Is(i: nat): nat -> nat {
    (j: nat) => if j == i then 1 else 0
  }

  function Holds(i: nat): Worker -> nat {
    (w: Worker) => if (w.Busy? || w.Holding?) && w.idx == i then 1 else 0
  }

  function Answers(i: nat): Answer -> nat {
    (r: Answer) => if r.idx == i then 1 else 0
  }

  function Occupied(w: Worker): nat {
    if w.Busy? || w.Holding? then 1 else 0
  }

  function NonEmpty(id: string): nat {
    if id == "" then 0 else 1
  }

  /** In how many of the four places behind the feeding loop index i is. */
  function Found(p: Pool, i: nat): nat {
    Sum(Is(i), p.jobs) + Sum(Holds(i), p.workers) + Sum(Answers(i), p.results) + Sum(Is(i), p.counted)
  }

  /** An index that was fed is in exactly one place, and no other index is anywhere. */
  ghost predicate Placed(p: Pool, i: nat) {
    Found(p, i) == if i < p.next then 1 else 0
  }

  ghost predicate Conserved(p: Pool) {
    forall i: nat {:trigger Placed(p, i)} :: Placed(p, i)
  }

  ghost predicate Tallied(p: Pool) {
    |p.jobs| + Sum(Occupied, p.workers) + |p.results| + |p.counted| == p.next <= p.n
  }

  ghost predicate CountedIfNamed(p: Pool, i: nat)
    requires i < |p.deviceIDs|
  {
    p.deviceIDs[i] != "" ==> Sum(Is(i), p.counted) >= 1
  }

  ghost predicate Booked(p: Pool) {
    p.registered + p.errors == |p.counted| && Sum(NonEmpty, p.deviceIDs) == p.registered &&
    |p.deviceIDs| == p.n &&
    forall i {:trigger CountedIfNamed(p, i)} | 0 <= i < |p.deviceIDs| :: CountedIfNamed(p, i)
  }

  ghost predicate Closing(p: Pool) {
    (p.closed ==> p.next == p.n) &&
    forall w | 0 <= w < |p.workers| && p.workers[w].Returned? :: p.closed && p.jobs == []
  }

  /** The channel is first in, first out. */
  ghost predicate InFeedOrder(p: Pool) {
    |p.jobs| <= p.next && forall k | 0 <= k < |p.jobs| :: p.jobs[k] == p.next - |p.jobs| + k
  }

  ghost predicate Inv(p: Pool) {
    Conserved(p) && Tallied(p) && Booked(p) && Closing(p) && InFeedOrder(p)
  }

  lemma StartKeeps(n: nat, concurrency: nat)
    ensures Inv(Start(n, concurrency))
  {
    var p := Start(n, concurrency);
    SumZero(NonEmpty, p.deviceIDs);
    SumZero(Occupied, p.workers);
    forall i: nat {:trigger Placed(p, i)} ensures Placed(p, i) {
      SumZero(Holds(i), p.workers);
    }
  }

  lemma PlacedStep(p: Pool, a: Action, i: nat)
    requires Enabled(p, a) && Placed(p, i)
    ensures Placed(Step(p, a), i)
  {
    match a
    case Feed => SumAppend(Is(i), p.jobs, p.next);
    case CloseJobs =>
    case Take(w) => SumUpdate(Holds(i), p.workers, w, Busy(p.jobs[0]));
    case Finish(w, id) => SumUpdate(Holds(i), p.workers, w, Holding(p.workers[w].idx, id));
    case Deliver(w) =>
      SumUpdate(Holds(i), p.workers, w, Idle);
      SumAppend(Answers(i), p.results, Answer(p.workers[w].idx, p.workers[w].id));
    case Return(w) => SumUpdate(Holds(i), p.workers, w, Returned);
    case Collect => SumAppend(Is(i), p.counted, p.results[0].idx);
  }

  lemma TalliedStep(p: Pool, a: Action)
    requires Enabled(p, a) && Tallied(p)
    ensures Tallied(Step(p, a))
  {
    match a
    case Feed =>
    case CloseJobs =>
    case Take(w) => SumUpdate(Occupied, p.workers, w, Busy(p.jobs[0]));
    case Finish(w, id) => SumUpdate(Occupied, p.workers, w, Holding(p.workers[w].idx, id));
    case Deliver(w) => SumUpdate(Occupied, p.workers, w, Idle);
    case Return(w) => SumUpdate(Occupied, p.workers, w, Returned);
    case Collect =>
  }

  lemma CollectedOnce(p: Pool)
    requires Conserved(p) && p.next <= p.n && p.results != []
    ensures p.results[0].idx < p.n && Sum(Is(p.results[0].idx), p.counted) == 0
  {
    var i := p.results[0].idx;
    assert Placed(p, i);
    SumAtLeast(Answers(i), p.results, 0);
  }

  lemma BookedStep(p: Pool)
    requires Conserved(p) && Tallied(p) && Booked(p) && Enabled(p, Collect)
    ensures Booked(Step(p, Collect))
  {
    var r, q := p.results[0], Step(p, Collect);
    CollectedOnce(p);
    assert CountedIfNamed(p, r.idx);
    SumUpdate(NonEmpty, p.deviceIDs, r.idx, r.id);
    forall i {:trigger CountedIfNamed(q, i)} | 0 <= i < |q.deviceIDs| ensures CountedIfNamed(q, i) {
      assert CountedIfNamed(p, i);
      SumAppend(Is(i), p.counted, r.idx);
    }
  }

  lemma BookedElsewhere(p: Pool, a: Action)
    requires Booked(p) && Enabled(p, a) && !a.Collect?
    ensures Booked(Step(p, a))
  {
    var q := Step(p, a);
    forall i {:trigger CountedIfNamed(q, i)} | 0 <= i < |q.deviceIDs| ensures CountedIfNamed(q, i) {
      assert CountedIfNamed(p, i);
    }
  }

  lemma ClosingStep(p: Pool, a: Action)
    requires Closing(p) && Enabled(p, a)
    ensures Closing(Step(p, a))
  {
  }

  lemma FeedOrderStep(p: Pool, a: Action)
    requires InFeedOrder(p) && Enabled(p, a)
    ensures InFeedOrder(Step(p, a))
  {
  }

  lemma StepKeeps(p: Pool, a: Action)
    requires Inv(p) && Enabled(p, a)
    ensures Inv(Step(p, a))
  {
    var q := Step(p, a);
    forall i: nat {:trigger Placed(q, i)} ensures Placed(q, i) {
      assert Placed(p, i);
      PlacedStep(p, a, i);
    }
    TalliedStep(p, a);
    ClosingStep(p, a);
    FeedOrderStep(p, a);
    if a.Collect? { BookedStep(p); } else { BookedElsewhere(p, a); }
  }

  // ---------- Runs

  ghost predicate ValidRun(p: Pool, run: seq<Action>)
    decreases |run|
  {
    run == [] || (Enabled(p, run[0]) && ValidRun(Step(p, run[0]), run[1..]))
  }

  function End(p: Pool, run: seq<Action>): Pool
    requires ValidRun(p, run)
    decreases |run|
  {
    if run == [] then p else End(Step(p, run[0]), run[1..])
  }

  /** What is left to do: every step does a little of it. */
  function Left(w: Worker): nat {
    match w
    case Idle => 1
    case Busy(_) => 4
    case Holding(_, _) => 3
    case Returned => 0
  }

  function Remaining(p: Pool): int {
    5 * (p.n - p.next) + 4 * |p.jobs| + Sum(Left, p.workers) + |p.results| + if p.closed then 0 else 1
  }

  lemma StepWorks(p: Pool, a: Action)
    requires Enabled(p, a)
    ensures Remaining(Step(p, a)) == Remaining(p) - 1
    ensures |Step(p, a).workers| == |p.workers| && Step(p, a).n == p.n
  {
    match a
    case Feed =>
    case CloseJobs =>
    case Take(w) => SumUpdate(Left, p.workers, w, Busy(p.jobs[0]));
    case Finish(w, id) => SumUpdate(Left, p.workers, w, Holding(p.workers[w].idx, id));
    case Deliver(w) => SumUpdate(Left, p.workers, w, Idle);
    case Return(w) => SumUpdate(Left, p.workers, w, Returned);
    case Collect =>
  }

  lemma {:induction false} RunKeeps(p: Pool, run: seq<Action>)
    requires Inv(p) && ValidRun(p, run)
    ensures var q := End(p, run);
            Inv(q) && |q.workers| == |p.workers| && q.n == p.n && 0 <= Remaining(q) == Remaining(p) - |run|
    decreases |run|
  {
    if run != [] {
      StepKeeps(p, run[0]);
      StepWorks(p, run[0]);
      RunKeeps(Step(p, run[0]), run[1..]);
    }
  }

  // ---------- What holds in every reachable state

  /** How many of the five places hold index i: not queued yet, jobs, a worker, results, counted. */
  function Places(p: Pool, i: nat): nat {
    (if p.next <= i then 1 else 0) + Found(p, i)
  }

  /** Conservation: after any interleaving each device index is in exactly one place, those on the jobs channel in the
      order they were fed, registered and errors add up to the answers counted, and the non-empty ids number
      registered. */
  lemma EveryIndexOnce(n: nat, concurrency: nat, run: seq<Action>, i: nat)
    requires i < n && ValidRun(Start(n, concurrency), run)
    ensures var p := End(Start(n, concurrency), run);
            Places(p, i) == 1 && InFeedOrder(p) && p.registered + p.errors == |p.counted| &&
            Sum(NonEmpty, p.deviceIDs) == p.registered && |p.deviceIDs| == n
  {
    StartKeeps(n, concurrency);
    RunKeeps(Start(n, concurrency), run);
    assert Placed(End(Start(n, concurrency), run), i);
  }

  /** Neither the feeding loop nor a worker with an answer ever finds its channel full, and the collecting
      loop never writes outside deviceIDs. */
  lemma SendsNeverBlock(p: Pool)
    requires Inv(p)
    ensures p.next < p.n && !p.closed ==> |p.jobs| < p.n && Enabled(p, Feed)
    ensures forall w | 0 <= w < |p.workers| && p.workers[w].Holding? :: |p.results| < p.n && Enabled(p, Deliver(w))
    ensures p.results != [] ==> p.results[0].idx < p.n == |p.deviceIDs| && (p.closed ==> Enabled(p, Collect))
  {
    if p.results != [] { CollectedOnce(p); }
    forall w | 0 <= w < |p.workers| && p.workers[w].Holding? ensures Enabled(p, Deliver(w)) {
      SumAtLeast(Occupied, p.workers, w);
    }
  }

  ghost predicate Stuck(p: Pool) {
    forall a :: !Enabled(p, a)
  }

  lemma StuckWorkersReturned(p: Pool)
    requires Inv(p) && |p.workers| >= 1 && Stuck(p)
    ensures p.closed && p.next == p.n && p.jobs == [] && p.results == []
    ensures forall w | 0 <= w < |p.workers| :: p.workers[w].Returned?
  {
    SendsNeverBlock(p);
    assert !Enabled(p, Feed) && !Enabled(p, CloseJobs) && !Enabled(p, Collect);
    forall w | 0 <= w < |p.workers| ensures p.workers[w].Returned? {
      assert !Enabled(p, Take(w)) && !Enabled(p, Finish(w, "")) && !Enabled(p, Deliver(w)) && !Enabled(p, Return(w));
    }
    assert p.workers[0].Returned?;
  }

  /** With at least one worker, the pool can stop only when every device has been counted, once. The
      collecting loop then still waits on results, which nobody closes: no step ends it. */
  lemma StopsOnlyWhenCounted(p: Pool)
    requires Inv(p) && |p.workers| >= 1 && Stuck(p)
    ensures p.registered + p.errors == |p.counted| == p.n
    ensures forall i: nat | i < p.n :: Sum(Is(i), p.counted) == 1
  {
    StuckWorkersReturned(p);
    SumZero(Occupied, p.workers);
    forall i: nat | i < p.n ensures Sum(Is(i), p.counted) == 1 {
      assert Placed(p, i);
      SumZero(Holds(i), p.workers);
    }
  }

  /** Whatever the interleaving, a run of the pool takes at most 5 * devices + workers + 1 steps, and once no
      step is left all devices are counted. */
  lemma PoolDrains(n: nat, concurrency: nat, run: seq<Action>)
    requires concurrency >= 1 && ValidRun(Start(n, concurrency), run)
    ensures |run| <= 5 * n + concurrency + 1
    ensures var p := End(Start(n, concurrency), run);
            Stuck(p) ==> p.registered + p.errors == n && forall i: nat | i < n :: Sum(Is(i), p.counted) == 1
  {
    var start := Start(n, concurrency);
    StartKeeps(n, concurrency);
    RunKeeps(start, run);
    SumOnes(Left, start.workers);
    var p := End(start, run);
    if Stuck(p) { StopsOnlyWhenCounted(p); }
  }

  // ---------- Which id ends where

  lemma {:induction false} RunSplits(p: Pool, run: seq<Action>)
    requires run != [] && ValidRun(p, run)
    ensures var n := |run| - 1;
            ValidRun(p, run[..n]) && Enabled(End(p, run[..n]), run[n]) &&
            End(p, run) == Step(End(p, run[..n]), run[n])
    decreases |run|
  {
    var n := |run| - 1;
    if n == 0 {
      assert run[..0] == [] && run[1..] == [];
    } else {
      RunSplits(Step(p, run[0]), run[1..]);
      assert run[1..][..n - 1] == run[..n][1..] && run[1..][n - 1] == run[n];
    }
  }

  /** The k-th step is the end of registerDevice for index i. */
  ghost predicate FinishAt(p: Pool, run: seq<Action>, k: nat, i: nat) {
    k < |run| && run[k].Finish? && ValidRun(p, run[..k]) &&
    var q := End(p, run[..k]); run[k].w < |q.workers| && q.workers[run[k].w] == Busy(i)
  }

  /** The ids that the finished registrations have brought, by index. */
  ghost function Brought(p: Pool, run: seq<Action>): map<nat, string>
    requires ValidRun(p, run)
  {
    if run == [] then map[]
    else
      RunSplits(p, run);
      var front, a := run[..|run| - 1], run[|run| - 1];
      BroughtNext(End(p, front), Brought(p, front), a)
  }

  ghost function BroughtNext(p: Pool, brought: map<nat, string>, a: Action): map<nat, string>
    requires Enabled(p, a)
  {
    if a.Finish? then brought[p.workers[a.w].idx := a.id] else brought
  }

  ghost predicate WorkerCarries(w: Worker, brought: map<nat, string>) {
    match w
    case Busy(i) => i !in brought
    case Holding(i, id) => i in brought && brought[i] == id
    case _ => true
  }

  ghost predicate CountedCarries(p: Pool, brought: map<nat, string>, i: nat) {
    i in brought && i < |p.deviceIDs| && p.deviceIDs[i] == brought[i]
  }

  /** Every id is where its index is, unchanged, and indices not yet finished have brought none. */
  ghost predicate Carried(p: Pool, brought: map<nat, string>) {
    (forall i | i in brought :: i < p.next) &&
    (forall i | i in p.jobs :: i !in brought) &&
    (forall w {:trigger WorkerCarries(p.workers[w], brought)} | 0 <= w < |p.workers| ::
       WorkerCarries(p.workers[w], brought)) &&
    (forall r | r in p.results :: r.idx in brought && brought[r.idx] == r.id) &&
    forall i {:trigger CountedCarries(p, brought, i)} | i in p.counted :: CountedCarries(p, brought, i)
  }

  lemma {:induction false} SumMember(i: nat, s: seq<nat>)
    ensures i in s <==> Sum(Is(i), s) >= 1
  {
    if s != [] {
      SumMember(i, s[1..]);
      assert s == [s[0]] + s[1..];
    }
  }

  /** An index that a worker is at is nowhere else. */
  lemma AtWorkerAlone(p: Pool, w: nat)
    requires Conserved(p) && w < |p.workers| && p.workers[w].Busy?
    ensures var i := p.workers[w].idx;
            i !in p.jobs && i !in p.counted && (forall r | r in p.results :: r.idx != i) &&
            forall v | 0 <= v < |p.workers| && v != w :: Holds(i)(p.workers[v]) == 0
  {
    var i := p.workers[w].idx;
    assert Placed(p, i);
    SumAtLeast(Holds(i), p.workers, w);
    SumMember(i, p.jobs);
    SumMember(i, p.counted);
    forall r | r in p.results ensures r.idx != i {
      var k :| 0 <= k < |p.results| && p.results[k] == r;
      SumAtLeast(Answers(i), p.results, k);
    }
    forall v | 0 <= v < |p.workers| && v != w ensures Holds(i)(p.workers[v]) == 0 {
      SumUpdate(Holds(i), p.workers, w, Idle);
      SumAtLeast(Holds(i), p.workers[w := Idle], v);
    }
  }

  lemma CarriedFinish(p: Pool, brought: map<nat, string>, a: Action)
    requires Inv(p) && Enabled(p, a) && Carried(p, brought) && a.Finish?
    ensures Carried(Step(p, a), BroughtNext(p, brought, a))
  {
    var q, now := Step(p, a), BroughtNext(p, brought, a);
    var i := p.workers[a.w].idx;
    AtWorkerAlone(p, a.w);
    assert i < p.next by {
      assert Placed(p, i);
      SumAtLeast(Holds(i), p.workers, a.w);
    }
    forall v {:trigger WorkerCarries(q.workers[v], now)} | 0 <= v < |q.workers|
      ensures WorkerCarries(q.workers[v], now)
    {
      if v != a.w { assert WorkerCarries(p.workers[v], brought) && Holds(i)(p.workers[v]) == 0; }
    }
    forall j {:trigger CountedCarries(q, now, j)} | j in q.counted ensures CountedCarries(q, now, j) {
      assert CountedCarries(p, brought, j);
    }
  }

  lemma CarriedCollect(p: Pool, brought: map<nat, string>)
    requires Inv(p) && Enabled(p, Collect) && Carried(p, brought)
    ensures Carried(Step(p, Collect), brought)
  {
    var q, r := Step(p, Collect), p.results[0];
    CollectedOnce(p);
    SumMember(r.idx, p.counted);
    assert CountedIfNamed(p, r.idx) && r in p.results;
    forall w {:trigger WorkerCarries(q.workers[w], brought)} | 0 <= w < |q.workers|
      ensures WorkerCarries(q.workers[w], brought)
    {
      assert WorkerCarries(p.workers[w], brought);
    }
    forall j {:trigger CountedCarries(q, brought, j)} | j in q.counted ensures CountedCarries(q, brought, j) {
      if j != r.idx { assert CountedCarries(p, brought, j); }
    }
  }

  lemma CarriedElsewhere(p: Pool, brought: map<nat, string>, a: Action)
    requires Inv(p) && Enabled(p, a) && Carried(p, brought) && !a.Finish? && !a.Collect?
    ensures Carried(Step(p, a), brought)
  {
    var q := Step(p, a);
    forall w {:trigger WorkerCarries(q.workers[w], brought)} | 0 <= w < |q.workers|
      ensures WorkerCarries(q.workers[w], brought)
    {
      assert WorkerCarries(p.workers[w], brought);
      if a.Take? { assert p.jobs[0] in p.jobs; }
    }
    if a.Deliver? { assert WorkerCarries(p.workers[a.w], brought); }
    forall j {:trigger CountedCarries(q, brought, j)} | j in q.counted ensures CountedCarries(q, brought, j) {
      assert CountedCarries(p, brought, j);
    }
  }

  /** The counted indices whose registration brought an id, and those whose registration brought none. */
  ghost function Named(p: Pool): set<nat> {
    set i | i in p.counted && i < |p.deviceIDs| && p.deviceIDs[i] != ""
  }

  ghost function Unnamed(p: Pool): set<nat> {
    set i | i in p.counted && i < |p.deviceIDs| && p.deviceIDs[i] == ""
  }

  ghost predicate CountsIds(p: Pool) {
    p.registered == |Named(p)| && p.errors == |Unnamed(p)|
  }

  lemma NamedGrows(p: Pool, q: Pool, i: nat)
    requires i !in p.counted && q.counted == p.counted + [i] && i < |p.deviceIDs| == |q.deviceIDs|
    requires forall j | 0 <= j < |p.deviceIDs| && j != i :: q.deviceIDs[j] == p.deviceIDs[j]
    ensures if q.deviceIDs[i] == "" then Named(q) == Named(p) && Unnamed(q) == Unnamed(p) + {i}
            else Named(q) == Named(p) + {i} && Unnamed(q) == Unnamed(p)
  {
    forall j: nat ensures j in q.counted <==> j in p.counted || j == i {}
  }

  lemma CollectedFresh(p: Pool)
    requires Inv(p) && Enabled(p, Collect)
    ensures var i := p.results[0].idx;
            i !in p.counted && i < |p.deviceIDs| && Step(p, Collect).deviceIDs[i] == p.results[0].id
  {
    var i := p.results[0].idx;
    CollectedOnce(p);
    SumMember(i, p.counted);
    assert CountedIfNamed(p, i);
  }

  lemma CountsCollect(p: Pool)
    requires Enabled(p, Collect) && CountsIds(p) && p.results[0].idx !in p.counted
    requires Step(p, Collect).deviceIDs[p.results[0].idx] == p.results[0].id
    ensures CountsIds(Step(p, Collect))
  {
    var i := p.results[0].idx;
    NamedGrows(p, Step(p, Collect), i);
    assert i !in Named(p) && i !in Unnamed(p);
  }

  lemma CountsElsewhere(p: Pool, a: Action)
    requires Enabled(p, a) && CountsIds(p) && !a.Collect?
    ensures CountsIds(Step(p, a))
  {
    assert Named(Step(p, a)) == Named(p) && Unnamed(Step(p, a)) == Unnamed(p);
  }

  lemma {:induction false} RunCarries(n: nat, concurrency: nat, run: seq<Action>)
    requires ValidRun(Start(n, concurrency), run)
    ensures var p := End(Start(n, concurrency), run);
            Inv(p) && p.n == n && Carried(p, Brought(Start(n, concurrency), run)) && CountsIds(p)
  {
    var start := Start(n, concurrency);
    StartKeeps(n, concurrency);
    RunKeeps(start, run);
    if run != [] {
      RunSplits(start, run);
      var front, a := run[..|run| - 1], run[|run| - 1];
      RunCarries(n, concurrency, front);
      var p, brought := End(start, front), Brought(start, front);
      if a.Finish? {
        CarriedFinish(p, brought, a);
      } else if a.Collect? {
        CarriedCollect(p, brought);
      } else {
        CarriedElsewhere(p, brought, a);
      }
      if a.Collect? { CollectedFresh(p); CountsCollect(p); } else { CountsElsewhere(p, a); }
    } else {
      assert Named(start) == {} && Unnamed(start) == {};
    }
  }

  lemma {:induction false} BroughtWhenFinished(p: Pool, run: seq<Action>, k: nat, i: nat)
    requires ValidRun(p, run) && FinishAt(p, run, k, i)
    ensures i in Brought(p, run)
  {
    RunSplits(p, run);
    var front := run[..|run| - 1];
    if k < |front| {
      assert front[..k] == run[..k] && front[k] == run[k];
      BroughtWhenFinished(p, front, k, i);
    }
  }

  lemma {:induction false} FinishedWhenBrought(p: Pool, run: seq<Action>, i: nat) returns (k: nat)
    requires ValidRun(p, run) && i in Brought(p, run)
    ensures FinishAt(p, run, k, i) && run[k].id == Brought(p, run)[i]
  {
    RunSplits(p, run);
    var front, a := run[..|run| - 1], run[|run| - 1];
    if a.Finish? && End(p, front).workers[a.w].idx == i {
      k := |run| - 1;
    } else {
      k := FinishedWhenBrought(p, front, i);
      assert front[..k] == run[..k] && front[k] == run[k];
    }
  }

  lemma NotYetBrought(n: nat, concurrency: nat, run: seq<Action>, k: nat, i: nat)
    requires FinishAt(Start(n, concurrency), run, k, i)
    ensures i !in Brought(Start(n, concurrency), run[..k])
  {
    var start := Start(n, concurrency);
    RunCarries(n, concurrency, run[..k]);
    assert WorkerCarries(End(start, run[..k]).workers[run[k].w], Brought(start, run[..k]));
  }

  /** Each index is registered at most once. */
  lemma FinishedOnce(n: nat, concurrency: nat, run: seq<Action>, j: nat, k: nat, i: nat)
    requires FinishAt(Start(n, concurrency), run, j, i) && FinishAt(Start(n, concurrency), run, k, i)
    ensures j == k
  {
    var start := Start(n, concurrency);
    var early, late := if j < k then j else k, if j < k then k else j;
    NotYetBrought(n, concurrency, run, late, i);
    if early < late {
      assert run[..late][..early] == run[..early] && run[..late][early] == run[early];
      BroughtWhenFinished(start, run[..late], early, i);
    }
  }

  /** What is counted is what came back. For a counted index the stored id is the one that its registration, the only
      one of the run, returned; for any other index it is still empty. */
  lemma IdsArrive(n: nat, concurrency: nat, run: seq<Action>, i: nat)
    requires i < n && ValidRun(Start(n, concurrency), run)
    ensures var start := Start(n, concurrency); var p := End(start, run);
            |p.deviceIDs| == n &&
            if i in p.counted
            then exists k: nat :: FinishAt(start, run, k, i) && p.deviceIDs[i] == run[k].id &&
                             forall j: nat :: FinishAt(start, run, j, i) ==> j == k
            else p.deviceIDs[i] == ""
  {
    var start := Start(n, concurrency);
    var p := End(start, run);
    RunCarries(n, concurrency, run);
    if i in p.counted {
      assert CountedCarries(p, Brought(start, run), i);
      var k := FinishedWhenBrought(start, run, i);
      forall j: nat | FinishAt(start, run, j, i) ensures j == k { FinishedOnce(n, concurrency, run, j, k, i); }
    } else {
      assert CountedIfNamed(p, i);
      SumMember(i, p.counted);
    }
  }

  /** registered is the number of counted devices that came back with an id, and errors of those that did not. */
  lemma OutcomesAreCounted(n: nat, concurrency: nat, run: seq<Action>)
    requires ValidRun(Start(n, concurrency), run)
    ensures var p := End(Start(n, concurrency), run);
            |p.deviceIDs| == n && (forall i | i in p.counted :: i < n) &&
            p.registered == |set i | i in p.counted && i < n && p.deviceIDs[i] != ""| &&
            p.errors == |set i | i in p.counted && i < n && p.deviceIDs[i] == ""|
  {
    RunCarries(n, concurrency, run);
    var p := End(Start(n, concurrency), run);
    forall i | i in p.counted ensures i < n { assert CountedCarries(p, Brought(Start(n, concurrency), run), i); }
    assert Named(p) == set i | i in p.counted && i < n && p.deviceIDs[i] != "";
    assert Unnamed(p) == set i | i in p.counted && i < n && p.deviceIDs[i] == "";
  }
}
