/** Splitting a string at a separator, as Go's strings.Split does for a one-character separator. */
module Text {

  datatype Option<+T> = None | Some(value: T)

  /** The parts of c + s, given the parts of s. */
  function Prepend(c: char, parts: seq<string>, sep: char): (r: seq<string>)
    requires |parts| >= 1
    ensures |r| >= 1
  {
    if c == sep then [""] + parts else [[c] + parts[0]] + parts[1..]
  }

  function Split(s: string, sep: char): (parts: seq<string>)
    ensures |parts| >= 1
  {
    if s == "" then [""] else Prepend(s[0], Split(s[1..], sep), sep)
  }

  function Join(parts: seq<string>, sep: char): string
    requires |parts| >= 1
  {
    if |parts| == 1 then parts[0] else parts[0] + [sep] + Join(parts[1..], sep)
  }

  ghost predicate Free(part: string, sep: char) {
    sep !in part
  }

  lemma JoinPrepend(c: char, parts: seq<string>, sep: char)
    requires |parts| >= 1
    requires forall i | 0 <= i < |parts| :: Free(parts[i], sep)
    ensures Join(Prepend(c, parts, sep), sep) == [c] + Join(parts, sep)
    ensures forall i | 0 <= i < |Prepend(c, parts, sep)| :: Free(Prepend(c, parts, sep)[i], sep)
  {
    var r := Prepend(c, parts, sep);
    if c == sep {
      assert r[1..] == parts;
      assert r[0] + [sep] + Join(parts, sep) == [c] + Join(parts, sep);
    } else {
      assert r[1..] == parts[1..];
    }
  }

  /** Splitting loses nothing: joining the parts gives the string back, and no part holds the separator. */
  lemma {:induction false} JoinSplit(s: string, sep: char)
    ensures Join(Split(s, sep), sep) == s
    ensures forall i | 0 <= i < |Split(s, sep)| :: Free(Split(s, sep)[i], sep)
  {
    if s != "" {
      JoinSplit(s[1..], sep);
      JoinPrepend(s[0], Split(s[1..], sep), sep);
      assert s == [s[0]] + s[1..];
    }
  }

  lemma {:induction false} SplitFree(a: string, sep: char)
    requires Free(a, sep)
    ensures Split(a, sep) == [a]
  {
    if a != "" {
      assert Free(a[1..], sep);
      SplitFree(a[1..], sep);
      assert a == [a[0]] + a[1..];
    }
  }

  lemma SplitStep(c: char, s: string, sep: char)
    ensures Split([c] + s, sep) == Prepend(c, Split(s, sep), sep)
  {
    assert ([c] + s)[1..] == s;
  }

  lemma PrependConcat(c: char, left: seq<string>, right: seq<string>, sep: char)
    requires |left| >= 1
    ensures Prepend(c, left + right, sep) == Prepend(c, left, sep) + right
  {
    assert (left + right)[0] == left[0] && (left + right)[1..] == left[1..] + right;
  }

  /** Splitting a + sep + b splits a and then b. */
  lemma {:induction false} SplitConcat(a: string, b: string, sep: char)
    ensures Split(a + [sep] + b, sep) == Split(a, sep) + Split(b, sep)
  {
    if a == "" {
      assert a + [sep] + b == [sep] + b;
      assert ([sep] + b)[1..] == b;
    } else {
      SplitConcat(a[1..], b, sep);
      var tail := a[1..] + [sep] + b;
      assert a + [sep] + b == [a[0]] + tail;
      SplitStep(a[0], tail, sep);
      SplitStep(a[0], a[1..], sep);
      assert a == [a[0]] + a[1..];
      PrependConcat(a[0], Split(a[1..], sep), Split(b, sep), sep);
    }
  }

  /** Joining separator-free parts and splitting again returns the same parts. */
  lemma {:induction false} SplitJoin(parts: seq<string>, sep: char)
    requires |parts| >= 1
    requires forall i | 0 <= i < |parts| :: Free(parts[i], sep)
    ensures Split(Join(parts, sep), sep) == parts
  {
    SplitFree(parts[0], sep);
    if |parts| > 1 {
      SplitJoin(parts[1..], sep);
      SplitConcat(parts[0], Join(parts[1..], sep), sep);
      assert parts == [parts[0]] + parts[1..];
    }
  }
}
