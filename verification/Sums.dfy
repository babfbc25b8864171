/** Totals over the elements of a sequence, for counting the goroutines in some stage. */
module Sums {

  function Sum<T>(w: T -> nat, s: seq<T>): nat {
    if s == [] then 0 else w(s[0]) + Sum(w, s[1..])
  }

  lemma {:induction false} SumUpdate<T>(w: T -> nat, s: seq<T>, k: nat, x: T)
    requires k < |s|
    ensures Sum(w, s[k := x]) + w(s[k]) == Sum(w, s) + w(x)
  {
    if k == 0 {
      assert s[0 := x][1..] == s[1..];
    } else {
      SumUpdate(w, s[1..], k - 1, x);
      assert s[k := x][1..] == s[1..][k - 1 := x];
    }
  }

  lemma {:induction false} SumAppend<T>(w: T -> nat, s: seq<T>, x: T)
    ensures Sum(w, s + [x]) == Sum(w, s) + w(x)
  {
    if s == [] {
      assert [] + [x] == [x];
      assert Sum(w, [x]) == w(x) + Sum(w, [x][1..]);
    } else {
      SumAppend(w, s[1..], x);
      assert (s + [x])[1..] == s[1..] + [x];
    }
  }

  lemma {:induction false} SumAtLeast<T>(w: T -> nat, s: seq<T>, k: nat)
    requires k < |s|
    ensures w(s[k]) <= Sum(w, s)
  {
    if k > 0 { SumAtLeast(w, s[1..], k - 1); }
  }

  lemma {:induction false} SumDominated<T>(v: T -> nat, w: T -> nat, s: seq<T>)
    requires forall i | 0 <= i < |s| :: v(s[i]) <= w(s[i])
    ensures Sum(v, s) <= Sum(w, s)
  {
    if s != [] { SumDominated(v, w, s[1..]); }
  }

  lemma {:induction false} SumZero<T>(w: T -> nat, s: seq<T>)
    requires forall i | 0 <= i < |s| :: w(s[i]) == 0
    ensures Sum(w, s) == 0
  {
    if s != [] { SumZero(w, s[1..]); }
  }

  lemma {:induction false} SumOnes<T>(w: T -> nat, s: seq<T>)
    requires forall i | 0 <= i < |s| :: w(s[i]) == 1
    ensures Sum(w, s) == |s|
  {
    if s != [] { SumOnes(w, s[1..]); }
  }
}
