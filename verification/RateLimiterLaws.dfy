/** The limiter refines a simple per-client counter, and admits no more than a rate per window
    (internal/server/server.go:230-261). */
module RateLimitingLaws {
  import opened RateLimiting

  // ---------- Runs of many clients

  function After(rate: int, calls: seq<Call>): Clients
  {
    if calls == [] then map[] else AfterAllow(rate, After(rate, calls[..|calls| - 1]), calls[|calls| - 1]).0
  }

  function Answers(rate: int, calls: seq<Call>): (answers: seq<bool>)
    ensures |answers| == |calls|
  {
    if calls == [] then []
    else
      var front, c := calls[..|calls| - 1], calls[|calls| - 1];
      Answers(rate, front) + [AfterAllow(rate, After(rate, front), c).1]
  }

  /** What one address did, in order. */
  function Own(calls: seq<Call>, ip: string): seq<Call> {
    if calls == [] then []
    else
      var c := calls[|calls| - 1];
      Own(calls[..|calls| - 1], ip) + (if c.ip == ip then [c] else [])
  }

  /** The answers that one address got, in order. */
  function OwnAnswers(calls: seq<Call>, answers: seq<bool>, ip: string): seq<bool>
    requires |answers| == |calls|
  {
    if calls == [] then []
    else
      var n := |calls| - 1;
      OwnAnswers(calls[..n], answers[..n], ip) + (if calls[n].ip == ip then [answers[n]] else [])
  }

  ghost predicate Clocked(calls: seq<Call>) {
    (forall i | 0 <= i < |calls| :: calls[i].made <= calls[i].now) &&
    (forall i, j | 0 <= i < j < |calls| :: calls[i].now <= calls[j].made)
  }

  // ---------- One client alone

  function SoloBucket(rate: int, own: seq<Call>): Bucket
    requires |own| > 0
  {
    var n := |own| - 1;
    var before := if n == 0 then Bucket(rate, own[0].made) else SoloBucket(rate, own[..n]);
    Draw(rate, before, own[n].now).0
  }

  function SoloAnswers(rate: int, own: seq<Call>): (answers: seq<bool>)
    ensures |answers| == |own|
  {
    if own == [] then []
    else
      var n := |own| - 1;
      var before := if n == 0 then Bucket(rate, own[0].made) else SoloBucket(rate, own[..n]);
      SoloAnswers(rate, own[..n]) + [Draw(rate, before, own[n].now).1]
  }

  /** Isolation: an address is answered as if it were alone, whatever the other clients do. */
  lemma {:induction false} Isolation(rate: int, calls: seq<Call>, ip: string)
    ensures OwnAnswers(calls, Answers(rate, calls), ip) == SoloAnswers(rate, Own(calls, ip))
    ensures ip in After(rate, calls) <==> Own(calls, ip) != []
    ensures ip in After(rate, calls) ==> After(rate, calls)[ip] == SoloBucket(rate, Own(calls, ip))
  {
    if calls != [] {
      var n := |calls| - 1;
      var front, c := calls[..n], calls[n];
      Isolation(rate, front, ip);
      assert Answers(rate, calls)[..n] == Answers(rate, front);
      if c.ip == ip {
        assert Own(calls, ip)[..|Own(calls, ip)| - 1] == Own(front, ip);
      } else {
        assert Own(calls, ip) == Own(front, ip);
      }
    }
  }

  // ---------- 64-bit arithmetic

  /** The rates for which the refill arithmetic stays within 64 bits, for any number of elapsed minutes. */
  predicate Fits(rate: int) {
    0 <= rate && (MAX64 / MINUTE + 1) * rate <= MAX64
  }

  lemma Scale(a: int, b: int, k: int)
    requires a <= b && k >= 0
    ensures a * k <= b * k
  {
  }

  /** Neither the product nor the sum of one refill leaves 64 bits. */
  ghost predicate StaysIn64(rate: int, elapsed: int, tokens: int) {
    var product := Minutes(elapsed) * rate;
    Is64(product) && Is64(tokens + product)
  }

  lemma NoOverflow(rate: int, elapsed: int, tokens: int)
    requires Fits(rate) && Is64(elapsed) && 0 <= tokens <= rate
    ensures StaysIn64(rate, elapsed, tokens)
  {
    var top := MAX64 / MINUTE;
    Scale(Minutes(elapsed), top, rate);
    Scale(-(top + 1), Minutes(elapsed), rate);
  }

  /** For a non-negative rate, no intermediate value leaves 64 bits, for any elapsed time and any reachable
      token count, exactly when the rate fits. */
  lemma OverflowFreeExactly(rate: int)
    requires rate >= 0
    ensures Fits(rate) <==> forall e, tokens | Is64(e) && 0 <= tokens <= rate :: StaysIn64(rate, e, tokens)
  {
    if Fits(rate) {
      forall e, tokens | Is64(e) && 0 <= tokens <= rate ensures StaysIn64(rate, e, tokens) {
        NoOverflow(rate, e, tokens);
      }
    } else {
      assert !StaysIn64(rate, MAX64, rate);
    }
  }

  /** Every rate below 2^32 fits. */
  lemma SmallRatesFit(rate: int)
    requires 0 <= rate < 0x1_0000_0000
    ensures Fits(rate)
  {
  }

  /** A rate that does not fit can miss a refill: one gap of four minutes multiplies 2^62 to exactly zero. */
  lemma HugeRateSkipsARefill(b: Bucket)
    ensures Topped(0x4000_0000_0000_0000, b, b.last + 4 * MINUTE) == b.tokens
  {
    assert Minutes(4 * MINUTE) == 4;
  }

  // ---------- All or nothing

  ghost predicate Bounded(rate: int, b: Bucket) {
    0 <= b.tokens <= rate
  }

  /** The refill that the limiter promises: entirely after an idle gap of at least the interval, and not at all
      otherwise, a clock that runs backwards included. */
  ghost predicate RefillsRight(rate: int, b: Bucket, now: int) {
    Topped(rate, b, now) == if now - b.last >= MINUTE then rate else b.tokens
  }

  lemma FullOrNothing(rate: int, b: Bucket, now: int)
    requires Fits(rate) && Bounded(rate, b)
    ensures RefillsRight(rate, b, now)
  {
    var e := Sub(now, b.last);
    NoOverflow(rate, e, b.tokens);
    if now - b.last >= MINUTE {
      Scale(1, Minutes(e), rate);
    } else {
      assert Minutes(e) <= 0;
      Scale(Minutes(e), 0, rate);
    }
  }

  /** For a rate that does not fit, the least number of minutes whose refill overflows a full bucket. */
  lemma LeastOverflow(rate: int, m: nat) returns (least: nat)
    requires 0 < rate <= MAX64 && m >= 1 && (m + 1) * rate > MAX64
    ensures 1 <= least <= m && least * rate <= MAX64 < (least + 1) * rate
  {
    least := m;
    while least * rate > MAX64
      invariant 1 <= least <= m && (least + 1) * rate > MAX64
      decreases least
    {
      assert least != 1;
      least := least - 1;
    }
  }

  lemma OverflowingRefill(rate: int, m: nat)
    requires 0 < rate <= MAX64 && 1 <= m <= MAX64 / MINUTE && m * rate <= MAX64 < (m + 1) * rate
    ensures Topped(rate, Bucket(rate, 0), m * MINUTE) < 0
  {
    assert Minutes(m * MINUTE) == m && Sub(m * MINUTE, 0) == m * MINUTE;
    Scale(1, m, rate);
    assert Refill(rate, m * MINUTE) == m * rate > 0;
    assert rate + m * rate == (m + 1) * rate;
  }

  /** The exact condition: every bucket is refilled as promised after every gap if and only if the rate fits. */
  lemma RefillsExactly(rate: int)
    requires 0 <= rate <= MAX64
    ensures Fits(rate) <==>
            forall b, now {:trigger RefillsRight(rate, b, now)} | Bounded(rate, b) && b.last <= now ::
              RefillsRight(rate, b, now)
  {
    if Fits(rate) {
      forall b, now {:trigger RefillsRight(rate, b, now)} | Bounded(rate, b) && b.last <= now
        ensures RefillsRight(rate, b, now)
      {
        FullOrNothing(rate, b, now);
      }
    } else {
      var m := LeastOverflow(rate, MAX64 / MINUTE);
      OverflowingRefill(rate, m);
      assert Bounded(rate, Bucket(rate, 0)) && !RefillsRight(rate, Bucket(rate, 0), m * MINUTE);
    }
  }

  /** A bucket without arithmetic: full again after an idle gap, one token less per admission. */
  function IdealDraw(rate: int, b: Bucket, now: int): (Bucket, bool) {
    var tokens := if now - b.last >= MINUTE then rate else b.tokens;
    if tokens <= 0 then (Bucket(tokens, now), false) else (Bucket(tokens - 1, now), true)
  }

  function IdealBucket(rate: int, own: seq<Call>): Bucket {
    if own == [] then Bucket(rate, 0)
    else
      var n := |own| - 1;
      if n == 0 then IdealDraw(rate, Bucket(rate, own[0].now), own[0].now).0
      else IdealDraw(rate, IdealBucket(rate, own[..n]), own[n].now).0
  }

  function IdealAnswers(rate: int, own: seq<Call>): (answers: seq<bool>)
    ensures |answers| == |own|
  {
    if own == [] then []
    else
      var n := |own| - 1;
      var before := if n == 0 then Bucket(rate, own[0].now) else IdealBucket(rate, own[..n]);
      IdealAnswers(rate, own[..n]) + [IdealDraw(rate, before, own[n].now).1]
  }

  lemma DrawIsIdeal(rate: int, b: Bucket, now: int)
    requires Fits(rate) && Bounded(rate, b)
    ensures Draw(rate, b, now) == IdealDraw(rate, b, now) && Bounded(rate, Draw(rate, b, now).0)
    ensures b.tokens == rate ==> Draw(rate, b, now) == IdealDraw(rate, Bucket(rate, now), now)
  {
    FullOrNothing(rate, b, now);
  }

  lemma {:induction false} SoloIsIdeal(rate: int, own: seq<Call>)
    requires Fits(rate)
    ensures SoloAnswers(rate, own) == IdealAnswers(rate, own)
    ensures own != [] ==> SoloBucket(rate, own) == IdealBucket(rate, own) && Bounded(rate, IdealBucket(rate, own)) &&
                          IdealBucket(rate, own).last == own[|own| - 1].now
  {
    if |own| == 1 {
      assert own[..0] == [];
      DrawIsIdeal(rate, Bucket(rate, own[0].made), own[0].now);
    } else if own != [] {
      var n := |own| - 1;
      SoloIsIdeal(rate, own[..n]);
      DrawIsIdeal(rate, SoloBucket(rate, own[..n]), own[n].now);
    }
  }

  // ---------- The counter

  function Count(answers: seq<bool>, from: nat, to: nat): nat
    requires from <= to <= |answers|
  {
    if from == to then 0 else Count(answers, from, to - 1) + if answers[to - 1] then 1 else 0
  }

  lemma {:induction false} CountPrefix(a: seq<bool>, b: seq<bool>, from: nat, to: nat)
    requires from <= to <= |a| && to <= |b| && forall i | from <= i < to :: a[i] == b[i]
    ensures Count(a, from, to) == Count(b, from, to)
  {
    if from < to { CountPrefix(a, b, from, to - 1); }
  }

  /** The call at i follows an idle gap of at least one interval. */
  predicate Gap(own: seq<Call>, i: nat)
    requires i < |own|
  {
    i > 0 && own[i].now - own[i - 1].now >= MINUTE
  }

  /** Where the burst of calls that i belongs to began: at the last idle gap, or at the first call. */
  function BurstStart(own: seq<Call>, i: nat): (start: nat)
    requires i < |own|
    ensures start <= i && (start == 0 || Gap(own, start))
    ensures forall j | start < j <= i :: !Gap(own, j)
  {
    if i == 0 || Gap(own, i) then i else BurstStart(own, i - 1)
  }

  lemma {:induction false} BurstStartPrefix(own: seq<Call>, n: nat, i: nat)
    requires i < n <= |own|
    ensures BurstStart(own[..n], i) == BurstStart(own, i)
  {
    if i > 0 && !Gap(own, i) { BurstStartPrefix(own, n, i - 1); }
  }

  /** The bucket holds what the current burst has left of the rate. */
  lemma {:induction false} BucketCounts(rate: int, own: seq<Call>)
    requires rate >= 0 && |own| > 0
    ensures var n := |own|; var start := BurstStart(own, n - 1);
            var b, ans := IdealBucket(rate, own), IdealAnswers(rate, own);
            b.last == own[n - 1].now && b.tokens == rate - Count(ans, start, n) >= 0 &&
            (ans[n - 1] <==> Count(ans, start, n - 1) < rate)
  {
    var n := |own| - 1;
    var front, ans := own[..n], IdealAnswers(rate, own);
    assert ans[..n] == IdealAnswers(rate, front);
    if n > 0 {
      BucketCounts(rate, front);
      BurstStartPrefix(own, n, n - 1);
      CountPrefix(ans, IdealAnswers(rate, front), BurstStart(own, n - 1), n);
    }
  }

  lemma {:induction false} IdealPrefix(rate: int, own: seq<Call>, n: nat)
    requires n <= |own|
    ensures IdealAnswers(rate, own[..n]) == IdealAnswers(rate, own)[..n]
  {
    var m := |own|;
    if n < m {
      IdealPrefix(rate, own[..m - 1], n);
      assert own[..m - 1][..n] == own[..n];
      assert IdealAnswers(rate, own)[..m - 1] == IdealAnswers(rate, own[..m - 1]);
    } else {
      assert own[..n] == own;
    }
  }

  ghost predicate Within(own: seq<Call>, calls: seq<Call>) {
    forall i {:trigger own[i]} | 0 <= i < |own| :: own[i] in calls
  }

  lemma {:induction false} OwnWithin(calls: seq<Call>, ip: string)
    ensures Within(Own(calls, ip), calls)
  {
    if calls != [] {
      OwnWithin(calls[..|calls| - 1], ip);
    }
  }

  lemma {:induction false} OwnIsClocked(calls: seq<Call>, ip: string)
    requires Clocked(calls)
    ensures Clocked(Own(calls, ip))
  {
    if calls != [] {
      var n := |calls| - 1;
      var front := Own(calls[..n], ip);
      OwnIsClocked(calls[..n], ip);
      OwnWithin(calls[..n], ip);
      forall i | 0 <= i < |front| ensures front[i].now <= calls[n].made {
        assert front[i] in calls[..n];
      }
    }
  }

  /** Among all the other clients an address gets the answers of the bucket without arithmetic. */
  lemma OwnIsIdeal(rate: int, calls: seq<Call>, ip: string)
    requires Fits(rate)
    ensures OwnAnswers(calls, Answers(rate, calls), ip) == IdealAnswers(rate, Own(calls, ip))
  {
    Isolation(rate, calls, ip);
    SoloIsIdeal(rate, Own(calls, ip));
  }

  lemma CounterAt(rate: int, own: seq<Call>, i: nat)
    requires rate >= 0 && i < |own|
    ensures var ans := IdealAnswers(rate, own); ans[i] <==> Count(ans, BurstStart(own, i), i) < rate
  {
    var here := own[..i + 1];
    IdealPrefix(rate, own, i + 1);
    BucketCounts(rate, here);
    BurstStartPrefix(own, i + 1, i);
    CountPrefix(IdealAnswers(rate, here), IdealAnswers(rate, own), BurstStart(own, i), i);
  }

  /** The i-th call of an address is admitted exactly when fewer than rate of its own calls were admitted since
      its last idle gap of at least one interval. */
  ghost predicate CountsRight(rate: int, calls: seq<Call>, ip: string, i: nat)
    requires i < |Own(calls, ip)|
  {
    var own, ans := Own(calls, ip), OwnAnswers(calls, Answers(rate, calls), ip);
    |ans| == |own| && (ans[i] <==> Count(ans, BurstStart(own, i), i) < rate)
  }

  /** Refinement: so it is for every interleaving of clients, even if the clock runs backwards. */
  lemma RefinesCounter(rate: int, calls: seq<Call>, ip: string, i: nat)
    requires Fits(rate) && i < |Own(calls, ip)|
    ensures CountsRight(rate, calls, ip, i)
  {
    OwnIsIdeal(rate, calls, ip);
    CounterAt(rate, Own(calls, ip), i);
  }

  lemma FirstCallRefused(rate: int, m: nat)
    requires 0 < rate <= MAX64 && 1 <= m <= MAX64 / MINUTE && m * rate <= MAX64 < (m + 1) * rate
    ensures var calls := [Call("", 0, m * MINUTE)];
            Clocked(calls) && |Own(calls, "")| == 1 && !CountsRight(rate, calls, "", 0)
  {
    var c := Call("", 0, m * MINUTE);
    var calls := [c];
    OverflowingRefill(rate, m);
    Isolation(rate, calls, "");
    assert calls[..0] == [] && Own(calls, "") == [] + [c] == calls;
    assert SoloAnswers(rate, calls) == SoloAnswers(rate, []) + [false];
  }

  /** The refinement holds in every interleaving, or only in those under a clock that does not run backwards, if and
      only if the rate fits. */
  lemma RefinesExactly(rate: int)
    requires 0 <= rate <= MAX64
    ensures Fits(rate) <==>
            forall calls, ip, i: nat {:trigger CountsRight(rate, calls, ip, i)} |
              Clocked(calls) && i < |Own(calls, ip)| :: CountsRight(rate, calls, ip, i)
  {
    if Fits(rate) {
      forall calls, ip, i: nat {:trigger CountsRight(rate, calls, ip, i)} | Clocked(calls) && i < |Own(calls, ip)|
        ensures CountsRight(rate, calls, ip, i)
      {
        RefinesCounter(rate, calls, ip, i);
      }
    } else {
      var m := LeastOverflow(rate, MAX64 / MINUTE);
      FirstCallRefused(rate, m);
    }
  }

  /** 0 <= tokens <= rate in every bucket of every run. */
  lemma TokensBounded(rate: int, calls: seq<Call>, ip: string)
    requires Fits(rate) && ip in After(rate, calls)
    ensures Bounded(rate, After(rate, calls)[ip])
  {
    Isolation(rate, calls, ip);
    SoloIsIdeal(rate, Own(calls, ip));
  }

  lemma FirstCallUnderflows(rate: int, m: nat)
    requires 0 < rate <= MAX64 && 1 <= m <= MAX64 / MINUTE && m * rate <= MAX64 < (m + 1) * rate
    ensures var calls := [Call("", 0, m * MINUTE)];
            Clocked(calls) && "" in After(rate, calls) && After(rate, calls)[""].tokens < 0
  {
    var c := Call("", 0, m * MINUTE);
    var calls := [c];
    OverflowingRefill(rate, m);
    Isolation(rate, calls, "");
    assert calls[..0] == [] && Own(calls, "") == [] + [c] == calls;
  }

  function Positive(tokens: int): nat {
    if tokens < 0 then 0 else tokens
  }

  /** Whatever the arithmetic does, a draw pays for its admission: out of one whole rate after a gap of an interval, and
      out of the bucket otherwise. A refill that wraps is capped like any other, and can leave less than nothing. */
  lemma DrawPays(rate: int, b: Bucket, now: int)
    requires 0 <= rate && b.tokens <= rate && b.last <= now
    ensures var (after, ok) := Draw(rate, b, now);
            after.last == now && after.tokens <= rate &&
            Positive(after.tokens) + (if ok then 1 else 0)
            <= (if now - b.last >= MINUTE then rate else Positive(b.tokens))
  {
    if now - b.last < MINUTE {
      assert Minutes(Sub(now, b.last)) == 0;
      assert Refill(rate, Sub(now, b.last)) == 0;
    }
  }

  lemma {:induction false} SoloWithinRate(rate: int, own: seq<Call>)
    requires rate >= 0 && own != [] && Clocked(own)
    ensures SoloBucket(rate, own).tokens <= rate && SoloBucket(rate, own).last == own[|own| - 1].now
  {
    var n := |own| - 1;
    if n == 0 {
      DrawPays(rate, Bucket(rate, own[0].made), own[0].now);
    } else {
      SoloWithinRate(rate, own[..n]);
      DrawPays(rate, SoloBucket(rate, own[..n]), own[n].now);
    }
  }

  /** Whatever the rate, no bucket ever holds more than it; that none ever holds less than nothing is true of every
      run if and only if the rate fits. */
  lemma TokensBoundedExactly(rate: int)
    requires 0 <= rate <= MAX64
    ensures forall calls, ip | Clocked(calls) && ip in After(rate, calls) :: After(rate, calls)[ip].tokens <= rate
    ensures Fits(rate) <==>
            forall calls, ip | Clocked(calls) && ip in After(rate, calls) :: 0 <= After(rate, calls)[ip].tokens
  {
    forall calls, ip | Clocked(calls) && ip in After(rate, calls) ensures After(rate, calls)[ip].tokens <= rate {
      Isolation(rate, calls, ip);
      OwnIsClocked(calls, ip);
      SoloWithinRate(rate, Own(calls, ip));
    }
    if Fits(rate) {
      forall calls, ip | Clocked(calls) && ip in After(rate, calls) ensures 0 <= After(rate, calls)[ip].tokens {
        TokensBounded(rate, calls, ip);
      }
    } else {
      var m := LeastOverflow(rate, MAX64 / MINUTE);
      FirstCallUnderflows(rate, m);
    }
  }

  /** A limiter whose rate is not positive admits nobody, whatever the clock does. */
  lemma {:induction false} NonPositiveRateRefuses(rate: int, own: seq<Call>)
    requires rate <= 0
    ensures own != [] ==> SoloBucket(rate, own).tokens <= 0
    ensures forall i | 0 <= i < |own| :: !SoloAnswers(rate, own)[i]
  {
    if own != [] {
      NonPositiveRateRefuses(rate, own[..|own| - 1]);
    }
  }

  // ---------- The window bound

  /** How many idle gaps end within (from, to). */
  function Gaps(own: seq<Call>, from: nat, to: nat): nat
    requires from < to <= |own|
  {
    if to == from + 1 then 0 else Gaps(own, from, to - 1) + if Gap(own, to - 1) then 1 else 0
  }

  /** One rate to start with, and one for each refill. */
  function Budget(rate: int, refills: nat): int {
    if refills == 0 then rate else Budget(rate, refills - 1) + rate
  }

  lemma {:induction false} BudgetIsProduct(rate: int, refills: nat)
    ensures Budget(rate, refills) == (refills + 1) * rate
  {
    if refills > 0 {
      BudgetIsProduct(rate, refills - 1);
    }
  }

  lemma {:induction false} GapsFitWindow(own: seq<Call>, from: nat, to: nat)
    requires from < to <= |own| && Clocked(own)
    ensures Gaps(own, from, to) * MINUTE <= own[to - 1].now - own[from].now
  {
    if to > from + 1 {
      GapsFitWindow(own, from, to - 1);
      assert own[to - 2].now <= own[to - 1].made <= own[to - 1].now;
    }
  }

  lemma {:induction false} SoloPrefix(rate: int, own: seq<Call>, n: nat)
    requires n <= |own|
    ensures SoloAnswers(rate, own[..n]) == SoloAnswers(rate, own)[..n]
  {
    var m := |own|;
    if n < m {
      SoloPrefix(rate, own[..m - 1], n);
      assert own[..m - 1][..n] == own[..n];
      assert SoloAnswers(rate, own)[..m - 1] == SoloAnswers(rate, own[..m - 1]);
    } else {
      assert own[..n] == own;
    }
  }

  function BeforeCall(rate: int, own: seq<Call>, n: nat): Bucket
    requires n < |own|
  {
    if n == 0 then Bucket(rate, own[0].made) else SoloBucket(rate, own[..n])
  }

  lemma SoloStep(rate: int, own: seq<Call>, n: nat)
    requires n < |own|
    ensures (SoloBucket(rate, own[..n + 1]), SoloAnswers(rate, own)[n])
            == Draw(rate, BeforeCall(rate, own, n), own[n].now)
  {
    var here := own[..n + 1];
    SoloPrefix(rate, own, n + 1);
    assert here[..n] == own[..n] && here[n] == own[n];
  }

  lemma BeforeCallFits(rate: int, own: seq<Call>, n: nat)
    requires rate >= 0 && n < |own| && Clocked(own)
    ensures var b := BeforeCall(rate, own, n);
            b.tokens <= rate && b.last <= own[n].now && (n > 0 ==> b.last == own[n - 1].now)
  {
    if n > 0 {
      SoloWithinRate(rate, own[..n]);
      assert own[..n][n - 1] == own[n - 1];
    }
  }

  /** A bucket before and after one call, and the answer: the call is paid for. */
  ghost predicate Paid(rate: int, before: Bucket, after: Bucket, ok: bool, now: int) {
    Positive(after.tokens) + (if ok then 1 else 0)
    <= if now - before.last >= MINUTE then rate else Positive(before.tokens)
  }

  lemma SoloPaid(rate: int, own: seq<Call>, n: nat)
    requires rate >= 0 && n < |own| && Clocked(own)
    ensures Paid(rate, BeforeCall(rate, own, n), SoloBucket(rate, own[..n + 1]), SoloAnswers(rate, own)[n], own[n].now)
  {
    BeforeCallFits(rate, own, n);
    SoloStep(rate, own, n);
    DrawPays(rate, BeforeCall(rate, own, n), own[n].now);
  }

  /** What one more call costs: at most one rate, and only what is in the bucket unless it follows a gap. */
  lemma OneMoreCall(rate: int, own: seq<Call>, n: nat, before: Bucket, after: Bucket, ok: bool)
    requires n < |own| && before.tokens <= rate && rate >= 0 && Paid(rate, before, after, ok, own[n].now)
    requires n > 0 ==> before.last == own[n - 1].now
    ensures var spent := Positive(after.tokens) + if ok then 1 else 0;
            spent <= rate && (n > 0 && !Gap(own, n) ==> spent <= Positive(before.tokens))
  {
  }

  /** The n-th call is paid for, left[n] being what the bucket holds before it and left[n + 1] after. */
  ghost predicate Pays(rate: int, own: seq<Call>, answers: seq<bool>, left: seq<nat>, n: nat)
    requires n < |own| == |answers| && |left| == |own| + 1
  {
    var spent := left[n + 1] + if answers[n] then 1 else 0;
    spent <= rate && (n > 0 && !Gap(own, n) ==> spent <= left[n])
  }

  /** Between two calls, admissions plus what is left in the bucket stay within one rate per burst. */
  lemma {:induction false} BurstsPay(rate: int, own: seq<Call>, answers: seq<bool>, left: seq<nat>, from: nat, to: nat)
    requires from < to <= |own| == |answers| && |left| == |own| + 1
    requires forall n {:trigger Pays(rate, own, answers, left, n)} | 0 <= n < |own| :: Pays(rate, own, answers, left, n)
    ensures Count(answers, from, to) + left[to] <= Budget(rate, Gaps(own, from, to))
  {
    assert Pays(rate, own, answers, left, to - 1);
    if to == from + 1 {
      assert Count(answers, from, from) == 0;
    } else {
      BurstsPay(rate, own, answers, left, from, to - 1);
    }
  }

  ghost function LeftBefore(rate: int, own: seq<Call>): seq<nat> {
    seq(|own| + 1, n requires 0 <= n <= |own| => if n == 0 then 0 else Positive(SoloBucket(rate, own[..n]).tokens))
  }

  lemma SoloPays(rate: int, own: seq<Call>)
    requires rate >= 0 && Clocked(own)
    ensures forall n {:trigger Pays(rate, own, SoloAnswers(rate, own), LeftBefore(rate, own), n)} | 0 <= n < |own| ::
              Pays(rate, own, SoloAnswers(rate, own), LeftBefore(rate, own), n)
  {
    var ans, left := SoloAnswers(rate, own), LeftBefore(rate, own);
    forall n {:trigger Pays(rate, own, ans, left, n)} | 0 <= n < |own| ensures Pays(rate, own, ans, left, n) {
      BeforeCallFits(rate, own, n);
      SoloPaid(rate, own, n);
      OneMoreCall(rate, own, n, BeforeCall(rate, own, n), SoloBucket(rate, own[..n + 1]), ans[n]);
    }
  }

  /** rate * (1 + span / interval). */
  function WindowAllowance(rate: int, span: int): int {
    (1 + span / MINUTE) * rate
  }

  lemma GapsAllowed(rate: int, gaps: nat, span: int)
    requires rate >= 0 && gaps * MINUTE <= span
    ensures (gaps + 1) * rate <= WindowAllowance(rate, span)
  {
    Scale(gaps + 1, 1 + span / MINUTE, rate);
  }

  /** Of the calls from..to-1, at most rate * (1 + span / interval) are admitted. */
  ghost predicate WithinWindow(rate: int, own: seq<Call>, answers: seq<bool>, from: nat, to: nat)
    requires from < to <= |own|
  {
    |answers| == |own| && Count(answers, from, to) <= WindowAllowance(rate, own[to - 1].now - own[from].now)
  }

  lemma SoloWindow(rate: int, own: seq<Call>, from: nat, to: nat)
    requires rate >= 0 && Clocked(own) && from < to <= |own|
    ensures WithinWindow(rate, own, SoloAnswers(rate, own), from, to)
  {
    var gaps, span := Gaps(own, from, to), own[to - 1].now - own[from].now;
    SoloPays(rate, own);
    BurstsPay(rate, own, SoloAnswers(rate, own), LeftBefore(rate, own), from, to);
    BudgetIsProduct(rate, gaps);
    GapsFitWindow(own, from, to);
    GapsAllowed(rate, gaps, span);
  }

  lemma OwnIsSolo(rate: int, calls: seq<Call>, ip: string)
    ensures OwnAnswers(calls, Answers(rate, calls), ip) == SoloAnswers(rate, Own(calls, ip))
  {
    Isolation(rate, calls, ip);
  }

  /** Window bound. In any stretch of an address's own calls, from time s to time t, at most
      rate * (1 + (t - s) / interval) are admitted, whatever the other clients do and even if the refill overflows:
      overflow never admits too many. */
  lemma WindowBound(rate: int, calls: seq<Call>, ip: string, from: nat, to: nat)
    requires 0 <= rate <= MAX64 && Clocked(calls) && from < to <= |Own(calls, ip)|
    ensures WithinWindow(rate, Own(calls, ip), OwnAnswers(calls, Answers(rate, calls), ip), from, to)
  {
    OwnIsClocked(calls, ip);
    OwnIsSolo(rate, calls, ip);
    SoloWindow(rate, Own(calls, ip), from, to);
  }
}
