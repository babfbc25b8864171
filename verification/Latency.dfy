/** Recorded latencies and their nearest-rank percentiles (cmd/simload/main.go:28-52). */
module Latency {

  ghost predicate Ordered(s: seq<int>) {
    forall i, j | 0 <= i < j < |s| :: s[i] <= s[j]
  }

  function Insert(x: int, s: seq<int>): seq<int> {
    if s == [] || x <= s[0] then [x] + s else [s[0]] + Insert(x, s[1..])
  }

  /** What sort.Slice makes of the copy. */
  function Sort(s: seq<int>): seq<int> {
    if s == [] then [] else Insert(s[0], Sort(s[1..]))
  }

  function CountAtMost(s: seq<int>, x: int): nat {
    if s == [] then 0 else (if s[0] <= x then 1 else 0) + CountAtMost(s[1..], x)
  }

  function CountBelow(s: seq<int>, x: int): nat {
    if s == [] then 0 else (if s[0] < x then 1 else 0) + CountBelow(s[1..], x)
  }

  /** ceil(percent / 100 * n). */
  function Rank(n: nat, percent: nat): nat {
    (n * percent + 99) / 100
  }

  /** The percentile: a sample that at least percent / 100 of the samples do not exceed, while fewer are below it. */
  ghost predicate IsPercentile(times: seq<int>, percent: nat, p: int) {
    p in times && 100 * CountBelow(times, p) < |times| * percent <= 100 * CountAtMost(times, p)
  }

  lemma {:induction false} InsertCounts(x: int, s: seq<int>, y: int)
    ensures CountAtMost(Insert(x, s), y) == CountAtMost(s, y) + (if x <= y then 1 else 0)
    ensures CountBelow(Insert(x, s), y) == CountBelow(s, y) + (if x < y then 1 else 0)
  {
    if s == [] || x <= s[0] {
      assert ([x] + s)[1..] == s;
    } else {
      InsertCounts(x, s[1..], y);
      assert ([s[0]] + Insert(x, s[1..]))[1..] == Insert(x, s[1..]);
    }
  }

  lemma {:induction false} InsertHolds(x: int, s: seq<int>)
    ensures multiset(Insert(x, s)) == multiset(s) + multiset{x}
  {
    if s != [] && x > s[0] {
      InsertHolds(x, s[1..]);
      assert s == [s[0]] + s[1..];
    }
  }

  lemma {:induction false} InsertOrders(x: int, s: seq<int>)
    requires Ordered(s)
    ensures Ordered(Insert(x, s))
  {
    if s != [] && x > s[0] {
      InsertOrders(x, s[1..]);
      InsertHolds(x, s[1..]);
      var rest := Insert(x, s[1..]);
      forall i | 0 <= i < |rest| ensures s[0] <= rest[i] {
        assert rest[i] in multiset(rest);
      }
    }
  }

  /** Sorting orders, and neither adds, drops nor changes a sample. */
  lemma {:induction false} SortSorts(s: seq<int>)
    ensures Ordered(Sort(s)) && multiset(Sort(s)) == multiset(s) && |Sort(s)| == |s|
  {
    if s != [] {
      SortSorts(s[1..]);
      InsertOrders(s[0], Sort(s[1..]));
      InsertHolds(s[0], Sort(s[1..]));
      assert s == [s[0]] + s[1..];
      assert |multiset(Sort(s))| == |multiset(s)|;
    }
  }

  lemma {:induction false} SortCounts(s: seq<int>, y: int)
    ensures CountAtMost(Sort(s), y) == CountAtMost(s, y) && CountBelow(Sort(s), y) == CountBelow(s, y)
  {
    if s != [] {
      SortCounts(s[1..], y);
      InsertCounts(s[0], Sort(s[1..]), y);
    }
  }

  lemma {:induction false} NothingBelow(s: seq<int>, x: int)
    requires forall i | 0 <= i < |s| :: x <= s[i]
    ensures CountBelow(s, x) == 0
  {
    if s != [] { NothingBelow(s[1..], x); }
  }

  lemma {:induction false} OrderedCounts(s: seq<int>, k: nat)
    requires Ordered(s) && k < |s|
    ensures CountBelow(s, s[k]) <= k < CountAtMost(s, s[k])
  {
    if k == 0 {
      NothingBelow(s, s[0]);
    } else {
      OrderedCounts(s[1..], k - 1);
    }
  }

  lemma {:induction false} CountsGrow(s: seq<int>, x: int, y: int)
    requires x < y
    ensures CountAtMost(s, x) <= CountBelow(s, y)
  {
    if s != [] { CountsGrow(s[1..], x, y); }
  }

  /** At most one value is the percentile, so the predicate determines it. */
  lemma PercentileUnique(times: seq<int>, percent: nat, p: int, q: int)
    requires IsPercentile(times, percent, p) && IsPercentile(times, percent, q)
    ensures p == q
  {
    if p < q { CountsGrow(times, p, q); }
    if q < p { CountsGrow(times, q, p); }
  }

  lemma RankInRange(n: nat, percent: nat)
    requires n >= 1 && 1 <= percent <= 100
    ensures 1 <= Rank(n, percent) <= n
  {
    assert n * percent <= n * 100;
    assert n * percent >= 1;
  }

  /** The rank is the least integer not below percent / 100 * n. */
  lemma RankIsCeiling(n: nat, percent: nat, below: nat, upTo: nat)
    requires below < Rank(n, percent) <= upTo
    ensures 100 * below < n * percent <= 100 * upTo
  {
  }

  lemma RankMonotone(n: nat, low: nat, high: nat)
    requires low <= high
    ensures Rank(n, low) <= Rank(n, high)
  {
    assert n * low <= n * high;
  }

  function Sample(times: seq<int>, rank: nat): int
    requires 1 <= rank <= |times| == |Sort(times)|
  {
    Sort(times)[rank - 1]
  }

  lemma SampleAtRank(times: seq<int>, rank: nat)
    requires 1 <= rank <= |times|
    ensures |Sort(times)| == |times|
    ensures var p := Sample(times, rank); p in times && CountBelow(times, p) < rank <= CountAtMost(times, p)
  {
    SortSorts(times);
    var p := Sample(times, rank);
    SortCounts(times, p);
    OrderedCounts(Sort(times), rank - 1);
    assert p in multiset(Sort(times));
  }

  /** The sample at the nearest rank of the sorted copy is the percentile of the recorded list. */
  lemma SortedSampleIsPercentile(times: seq<int>, percent: nat)
    requires times != [] && 1 <= percent <= 100
    ensures 1 <= Rank(|times|, percent) <= |times| == |Sort(times)|
    ensures IsPercentile(times, percent, Sample(times, Rank(|times|, percent)))
  {
    RankInRange(|times|, percent);
    SampleAtRank(times, Rank(|times|, percent));
    var p := Sample(times, Rank(|times|, percent));
    RankIsCeiling(|times|, percent, CountBelow(times, p), CountAtMost(times, p));
  }

  lemma SampleMonotone(times: seq<int>, low: nat, high: nat)
    requires 1 <= low <= high <= |times| == |Sort(times)| && Ordered(Sort(times))
    ensures Sample(times, low) <= Sample(times, high)
  {
  }

  /** A larger percentage never gives a smaller percentile. */
  lemma PercentilesAscend(times: seq<int>, low: nat, high: nat)
    requires times != [] && 1 <= low <= high <= 100
    requires 1 <= Rank(|times|, low) <= |times| == |Sort(times)| && 1 <= Rank(|times|, high) <= |times|
    ensures Sample(times, Rank(|times|, low)) <= Sample(times, Rank(|times|, high))
  {
    SortSorts(times);
    RankMonotone(|times|, low, high);
    SampleMonotone(times, Rank(|times|, low), Rank(|times|, high));
  }

  /** copy followed by sort.Slice. */
  method SortedCopy(times: seq<int>) returns (sorted: seq<int>)
    ensures sorted == Sort(times)
  {
    sorted := [];
    var i := |times|;
    while i > 0
      invariant 0 <= i <= |times|
      invariant sorted == Sort(times[i..])
    {
      i := i - 1;
      assert times[i..][1..] == times[i + 1..];
      sorted := Insert(times[i], sorted);
    }
    assert times[0..] == times;
  }

  class LatencyTracker {
    var times: seq<int>

    constructor ()
      ensures times == []
    {
      times := [];
    }

    method Record(d: int)
      modifies this
      ensures times == old(times) + [d]
    {
      times := times + [d];
    }

    /** The three indices are in range and the results are the percentiles, in order; times is only read. */
    method Report() returns (p50: int, p95: int, p99: int)
      ensures times == [] ==> p50 == p95 == p99 == 0
      ensures times != [] ==>
                IsPercentile(times, 50, p50) && IsPercentile(times, 95, p95) && IsPercentile(times, 99, p99) &&
                p50 <= p95 <= p99
    {
      if |times| == 0 { return 0, 0, 0; }
      var sorted := SortedCopy(times);
      SortedSampleIsPercentile(times, 50);
      SortedSampleIsPercentile(times, 95);
      SortedSampleIsPercentile(times, 99);
      PercentilesAscend(times, 50, 95);
      PercentilesAscend(times, 95, 99);
      p50 := sorted[Rank(|sorted|, 50) - 1];
      p95 := sorted[Rank(|sorted|, 95) - 1];
      p99 := sorted[Rank(|sorted|, 99) - 1];
    }
  }
}
