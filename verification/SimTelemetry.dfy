/** The one-shot telemetry phase: a goroutine per device behind a semaphore, a results channel that nobody
    drains, and a closer that waits for all (cmd/simload/main.go:196-232). */
module OneShotTelemetry {
  import opened Sums
  import opened RegistrationPool

  /** A goroutine before the semaphore, sending, with its outcome counted, with its outcome reported on
      teleResults, with the semaphore released, and after teleWg.Done. */
  datatype Sender = Waiting | Sending | Counted | Reported | Released | Finished

  datatype Closer = NotStarted | WaitsForAll | DoneClosed | ResultsClosed

  /** dids[g] is the device id that goroutine g was started with. */
  datatype Phase = Phase(
    ids: seq<string>, next: nat, senders: seq<Sender>, dids: seq<string>, semCapacity: nat, semUsed: nat,
    capacity: nat, buffered: nat, wg: int, sent: int, errors: int, closer: Closer)

  datatype Move =
    | Launch | StartCloser | Acquire(g: nat) | Send(g: nat, ok: bool) | Report(g: nat) | Release(g: nat) | Done(g: nat)
    | CloseDone | CloseResults

  /** The phase as runOneShotTelemetry sets it up from the registered count and the shared counters. */
  function Begin(ids: seq<string>, registered: nat, concurrency: nat, sent: int, errors: int): Phase {
    Phase(ids, 0, [], [], concurrency, 0, registered, 0, 0, sent, errors, NotStarted)
  }

  predicate At(p: Phase, g: nat, stage: Sender) {
    g < |p.senders| && p.senders[g] == stage
  }

  /** A send on a full channel blocks; one on a closed channel would panic. */
  predicate CanMove(p: Phase, m: Move) {
    match m
    case Launch => p.next < |p.ids|
    case StartCloser => p.next == |p.ids| && p.closer.NotStarted?
    case Acquire(g) => At(p, g, Waiting) && p.semUsed < p.semCapacity
    case Send(g, _) => At(p, g, Sending)
    case Report(g) => At(p, g, Counted) && p.buffered < p.capacity && !p.closer.ResultsClosed?
    case Release(g) => At(p, g, Reported) && p.semUsed > 0
    case Done(g) => At(p, g, Released)
    case CloseDone => p.closer.WaitsForAll? && p.wg == 0
    case CloseResults => p.closer.DoneClosed?
  }

  function Next(p: Phase, m: Move): Phase
    requires CanMove(p, m)
  {
    match m
    case Launch =>
      if p.ids[p.next] == "" then p.(next := p.next + 1)
      else p.(next := p.next + 1, wg := p.wg + 1, senders := p.senders + [Waiting], dids := p.dids + [p.ids[p.next]])
    case StartCloser => p.(closer := WaitsForAll)
    case Acquire(g) => p.(senders := p.senders[g := Sending], semUsed := p.semUsed + 1)
    case Send(g, ok) =>
      var q := p.(senders := p.senders[g := Counted]);
      if ok then q.(sent := q.sent + 1) else q.(errors := q.errors + 1)
    case Report(g) => p.(senders := p.senders[g := Reported], buffered := p.buffered + 1)
    case Release(g) => p.(senders := p.senders[g := Released], semUsed := p.semUsed - 1)
    case Done(g) => p.(senders := p.senders[g := Finished], wg := p.wg - 1)
    case CloseDone => p.(closer := DoneClosed)
    case CloseResults => p.(closer := ResultsClosed)
  }

  // ---------- The counters, in terms of where the goroutines are

  function InFlight(s: Sender): nat { if s.Sending? then 1 else 0 }
  function UsesSem(s: Sender): nat { if s.Sending? || s.Counted? || s.Reported? then 1 else 0 }
  function HasCounted(s: Sender): nat { if s.Waiting? || s.Sending? then 0 else 1 }
  function HasReported(s: Sender): nat { if s.Reported? || s.Released? || s.Finished? then 1 else 0 }
  function Unfinished(s: Sender): nat { if s.Finished? then 0 else 1 }
  function Any(s: Sender): nat { 1 }

  ghost predicate Counters(p: Phase, base: int) {
    p.semUsed == Sum(UsesSem, p.senders) <= p.semCapacity &&
    p.buffered == Sum(HasReported, p.senders) &&
    p.wg == Sum(Unfinished, p.senders) &&
    p.sent + p.errors == base + Sum(HasCounted, p.senders)
  }

  /** One goroutine per non-empty id so far, and room on the channel for all of them. */
  ghost predicate Launched(p: Phase) {
    p.next <= |p.ids| && |p.senders| + Sum(NonEmpty, p.ids[p.next..]) == Sum(NonEmpty, p.ids) == p.capacity &&
    (p.closer != NotStarted ==> p.next == |p.ids|) &&
    (p.closer == DoneClosed || p.closer == ResultsClosed ==> p.wg == 0)
  }

  ghost predicate Good(p: Phase, base: int) {
    Counters(p, base) && Launched(p)
  }

  /** The four sums after one goroutine moves to another stage. */
  lemma SumsMove(s: seq<Sender>, g: nat, x: Sender)
    requires g < |s|
    ensures Sum(UsesSem, s[g := x]) + UsesSem(s[g]) == Sum(UsesSem, s) + UsesSem(x)
    ensures Sum(HasReported, s[g := x]) + HasReported(s[g]) == Sum(HasReported, s) + HasReported(x)
    ensures Sum(Unfinished, s[g := x]) + Unfinished(s[g]) == Sum(Unfinished, s) + Unfinished(x)
    ensures Sum(HasCounted, s[g := x]) + HasCounted(s[g]) == Sum(HasCounted, s) + HasCounted(x)
  {
    SumUpdate(UsesSem, s, g, x);
    SumUpdate(HasReported, s, g, x);
    SumUpdate(Unfinished, s, g, x);
    SumUpdate(HasCounted, s, g, x);
  }

  lemma SumsLaunch(s: seq<Sender>)
    ensures Sum(UsesSem, s + [Waiting]) == Sum(UsesSem, s) && Sum(HasReported, s + [Waiting]) == Sum(HasReported, s)
    ensures Sum(Unfinished, s + [Waiting]) == Sum(Unfinished, s) + 1
    ensures Sum(HasCounted, s + [Waiting]) == Sum(HasCounted, s)
  {
    SumAppend(UsesSem, s, Waiting);
    SumAppend(HasReported, s, Waiting);
    SumAppend(Unfinished, s, Waiting);
    SumAppend(HasCounted, s, Waiting);
  }

  /** A goroutine moves on: every counter follows. */
  lemma StageStep(p: Phase, m: Move, base: int)
    requires Counters(p, base) && CanMove(p, m) && (m.Acquire? || m.Send? || m.Report? || m.Release? || m.Done?)
    ensures Counters(Next(p, m), base)
  {
    SumsMove(p.senders, m.g, Next(p, m).senders[m.g]);
  }

  lemma CountersStep(p: Phase, m: Move, base: int)
    requires Counters(p, base) && CanMove(p, m)
    ensures Counters(Next(p, m), base)
  {
    match m
    case Launch => SumsLaunch(p.senders);
    case StartCloser =>
    case CloseDone =>
    case CloseResults =>
    case _ => StageStep(p, m, base);
  }

  lemma LaunchedStep(p: Phase, m: Move, base: int)
    requires Good(p, base) && CanMove(p, m)
    ensures Launched(Next(p, m))
  {
    if m.Launch? {
      assert p.ids[p.next..][1..] == p.ids[p.next + 1..];
    }
    if m.Done? {
      SumAtLeast(Unfinished, p.senders, m.g);
    }
  }

  // ---------- Runs

  ghost predicate ValidMoves(p: Phase, run: seq<Move>)
    decreases |run|
  {
    run == [] || (CanMove(p, run[0]) && ValidMoves(Next(p, run[0]), run[1..]))
  }

  function Final(p: Phase, run: seq<Move>): Phase
    requires ValidMoves(p, run)
    decreases |run|
  {
    if run == [] then p else Final(Next(p, run[0]), run[1..])
  }

  function StepsLeft(s: Sender): nat {
    match s
    case Waiting => 5 case Sending => 4 case Counted => 3 case Reported => 2 case Released => 1 case Finished => 0
  }

  function CloserLeft(c: Closer): nat {
    match c
    case NotStarted => 3 case WaitsForAll => 2 case DoneClosed => 1 case ResultsClosed => 0
  }

  function WorkLeft(p: Phase): int {
    6 * (|p.ids| - p.next) + Sum(StepsLeft, p.senders) + CloserLeft(p.closer)
  }

  lemma MoveWorks(p: Phase, m: Move)
    requires CanMove(p, m)
    ensures WorkLeft(Next(p, m)) < WorkLeft(p)
  {
    match m
    case Launch => SumAppend(StepsLeft, p.senders, Waiting);
    case StartCloser =>
    case Acquire(g) => SumUpdate(StepsLeft, p.senders, g, Sending);
    case Send(g, ok) => SumUpdate(StepsLeft, p.senders, g, Counted);
    case Report(g) => SumUpdate(StepsLeft, p.senders, g, Reported);
    case Release(g) => SumUpdate(StepsLeft, p.senders, g, Released);
    case Done(g) => SumUpdate(StepsLeft, p.senders, g, Finished);
    case CloseDone =>
    case CloseResults =>
  }

  lemma {:induction false} MovesKeep(p: Phase, run: seq<Move>, base: int)
    requires Good(p, base) && ValidMoves(p, run)
    ensures var q := Final(p, run);
            Good(q, base) && q.ids == p.ids && q.semCapacity == p.semCapacity && 0 <= WorkLeft(q) <= WorkLeft(p) - |run|
    decreases |run|
  {
    if run != [] {
      CountersStep(p, run[0], base);
      LaunchedStep(p, run[0], base);
      MoveWorks(p, run[0]);
      MovesKeep(Next(p, run[0]), run[1..], base);
    }
  }

  // ---------- The theorems

  /** Never more than semCapacity sends in flight; a goroutine with an outcome never blocks on teleResults
      and never finds it closed; and releasing the semaphore never blocks. */
  lemma SafeSends(p: Phase, base: int)
    requires Good(p, base)
    ensures Sum(InFlight, p.senders) <= p.semCapacity
    ensures forall g | 0 <= g < |p.senders| && p.senders[g] == Counted ::
              p.buffered < p.capacity && p.closer != ResultsClosed && CanMove(p, Report(g))
    ensures forall g | 0 <= g < |p.senders| && p.senders[g] == Reported :: p.semUsed > 0 && CanMove(p, Release(g))
  {
    SumDominated(InFlight, UsesSem, p.senders);
    forall g | 0 <= g < |p.senders| && p.senders[g] == Counted ensures CanMove(p, Report(g)) {
      SumAtLeast(Unfinished, p.senders, g);
      SumUpdate(HasReported, p.senders, g, Reported);
      SumDominated(HasReported, Any, p.senders[g := Reported]);
      SumOnes(Any, p.senders[g := Reported]);
    }
    forall g | 0 <= g < |p.senders| && p.senders[g] == Reported ensures CanMove(p, Release(g)) {
      SumAtLeast(UsesSem, p.senders, g);
    }
  }

  ghost predicate Halted(p: Phase) {
    forall m :: !CanMove(p, m)
  }

  lemma HaltedSenders(p: Phase, base: int)
    requires Good(p, base) && p.semCapacity >= 1 && Halted(p)
    ensures p.next == |p.ids| && forall g | 0 <= g < |p.senders| :: p.senders[g] == Finished
  {
    SafeSends(p, base);
    assert !CanMove(p, Launch);
    forall g | 0 <= g < |p.senders| ensures p.senders[g] == Waiting || p.senders[g] == Finished {
      assert !CanMove(p, Send(g, true)) && !CanMove(p, Done(g)) && !CanMove(p, Report(g)) && !CanMove(p, Release(g));
    }
    SumZero(UsesSem, p.senders);
    forall g | 0 <= g < |p.senders| ensures p.senders[g] == Finished {
      assert !CanMove(p, Acquire(g));
    }
  }

  /** The phase can only end in order: every goroutine finished, both channels closed, and what was sent
      plus the new errors equal to the goroutines launched, one per non-empty id. */
  lemma HaltsWhenDone(p: Phase, base: int)
    requires Good(p, base) && p.semCapacity >= 1 && Halted(p)
    ensures p.closer == ResultsClosed && p.sent + p.errors - base == |p.senders| == Sum(NonEmpty, p.ids)
  {
    HaltedSenders(p, base);
    SumZero(Unfinished, p.senders);
    SumOnes(HasCounted, p.senders);
    assert !CanMove(p, StartCloser) && !CanMove(p, CloseDone) && !CanMove(p, CloseResults);
    assert p.ids[p.next..] == [];
  }

  /** From the pool to the end of the phase: whatever the two interleavings, teleResults has room for every
      goroutine, the phase takes a bounded number of steps, its sends respect the semaphore, reporting and
      releasing never block, no send meets a closed channel, and where it halts every registered device was sent
      or counted as an error. */
  lemma OneShotTerminates(n: nat, concurrency: nat, pool: seq<Action>, run: seq<Move>)
    requires concurrency >= 1 && ValidRun(Start(n, concurrency), pool)
    requires var q := End(Start(n, concurrency), pool);
             ValidMoves(Begin(q.deviceIDs, q.registered, concurrency, 0, q.errors), run)
    ensures var q := End(Start(n, concurrency), pool);
            var p := Final(Begin(q.deviceIDs, q.registered, concurrency, 0, q.errors), run);
            |run| <= 6 * n + 3 &&
            Sum(InFlight, p.senders) <= concurrency &&
            (forall g | 0 <= g < |p.senders| && p.senders[g] == Counted ::
               p.buffered < q.registered && p.closer != ResultsClosed && CanMove(p, Report(g))) &&
            (forall g | 0 <= g < |p.senders| && p.senders[g] == Reported ::
               p.semUsed > 0 && CanMove(p, Release(g))) &&
            (Halted(p) ==> p.closer == ResultsClosed && p.sent + (p.errors - q.errors) == |p.senders| == q.registered)
  {
    StartKeeps(n, concurrency);
    RunKeeps(Start(n, concurrency), pool);
    var q := End(Start(n, concurrency), pool);
    var begin := Begin(q.deviceIDs, q.registered, concurrency, 0, q.errors);
    assert q.deviceIDs[0..] == q.deviceIDs;
    assert Good(begin, q.errors);
    MovesKeep(begin, run, q.errors);
    var p := Final(begin, run);
    SafeSends(p, q.errors);
    if Halted(p) { HaltsWhenDone(p, q.errors); }
  }

  // ---------- Which device each goroutine sends for, and with what outcome

  /** One goroutine for each non-empty id looked at so far, as often as the id occurs. */
  ghost predicate Assigned(p: Phase) {
    |p.dids| == |p.senders| && p.next <= |p.ids| &&
    forall id :: multiset(p.dids)[id] == if id == "" then 0 else multiset(p.ids[..p.next])[id]
  }

  lemma AssignedStep(p: Phase, m: Move)
    requires Assigned(p) && CanMove(p, m)
    ensures Assigned(Next(p, m))
  {
    if m.Launch? { assert p.ids[..p.next + 1] == p.ids[..p.next] + [p.ids[p.next]]; }
  }

  /** A send that ends like this, and a send of this goroutine. */
  function Ends(ok: bool): Move -> nat {
    (m: Move) => if m.Send? && m.ok == ok then 1 else 0
  }

  function SendOf(g: nat): Move -> nat {
    (m: Move) => if m.Send? && m.g == g then 1 else 0
  }

  lemma {:induction false} OutcomesCounted(p: Phase, run: seq<Move>)
    requires ValidMoves(p, run)
    ensures Final(p, run).sent == p.sent + Sum(Ends(true), run)
    ensures Final(p, run).errors == p.errors + Sum(Ends(false), run)
    decreases |run|
  {
    if run != [] { OutcomesCounted(Next(p, run[0]), run[1..]); }
  }

  /** 1 once goroutine g has an outcome. */
  function HasOutcome(p: Phase, g: nat): nat {
    if g < |p.senders| then HasCounted(p.senders[g]) else 0
  }

  lemma {:induction false} SendsOnce(p: Phase, run: seq<Move>, g: nat)
    requires ValidMoves(p, run)
    ensures HasOutcome(Final(p, run), g) == HasOutcome(p, g) + Sum(SendOf(g), run)
    decreases |run|
  {
    if run != [] { SendsOnce(Next(p, run[0]), run[1..], g); }
  }

  lemma {:induction false} StaysAssigned(p: Phase, run: seq<Move>)
    requires Assigned(p) && ValidMoves(p, run)
    ensures Assigned(Final(p, run)) && Final(p, run).ids == p.ids
    decreases |run|
  {
    if run != [] {
      AssignedStep(p, run[0]);
      StaysAssigned(Next(p, run[0]), run[1..]);
    }
  }

  /** At any point sent has grown by one for each send that went through and errors by one for each that failed, and no
      goroutine has sent twice. Where the phase halts there is one goroutine for each registered device, started with
      its id, and each of them has sent exactly once. */
  lemma EachDeviceSentOnce(ids: seq<string>, registered: nat, concurrency: nat, sent: int, errors: int, run: seq<Move>)
    requires concurrency >= 1 && registered == Sum(NonEmpty, ids)
    requires ValidMoves(Begin(ids, registered, concurrency, sent, errors), run)
    ensures var p := Final(Begin(ids, registered, concurrency, sent, errors), run);
            && p.sent == sent + Sum(Ends(true), run) && p.errors == errors + Sum(Ends(false), run)
            && (forall g: nat :: Sum(SendOf(g), run) <= 1)
            && (Halted(p) ==>
                  |p.dids| == |p.senders| == registered &&
                  (forall g: nat | g < registered :: Sum(SendOf(g), run) == 1) &&
                  forall id | id != "" :: multiset(p.dids)[id] == multiset(ids)[id])
  {
    var begin := Begin(ids, registered, concurrency, sent, errors);
    var p := Final(begin, run);
    assert ids[0..] == ids && ids[..0] == [];
    OutcomesCounted(begin, run);
    StaysAssigned(begin, run);
    MovesKeep(begin, run, sent + errors);
    forall g: nat ensures Sum(SendOf(g), run) == HasOutcome(p, g) <= 1 { SendsOnce(begin, run, g); }
    if Halted(p) {
      HaltedSenders(p, sent + errors);
      HaltsWhenDone(p, sent + errors);
      assert ids[..|ids|] == ids;
    }
  }
}
