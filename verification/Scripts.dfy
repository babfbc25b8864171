/** Migration scripts: cut at ';', trimmed, blank pieces dropped
    (internal/db/migrate.go:39-53, 95-109, 176-190). */
module Scripts {
  import opened Text

  /** The white space of Go's unicode.IsSpace. */
  predicate IsSpace(c: char) {
    c in "\t\n\U{b}\U{c}\r \U{85}\U{a0}\U{1680}\U{2028}\U{2029}\U{202f}\U{205f}\U{3000}"
    || '\U{2000}' <= c <= '\U{200a}'
  }

  function TrimLeft(s: string): (t: string)
    ensures |t| <= |s|
  {
    if s != "" && IsSpace(s[0]) then TrimLeft(s[1..]) else s
  }

  function TrimRight(s: string): (t: string)
    ensures |t| <= |s|
  {
    if s != "" && IsSpace(s[|s| - 1]) then TrimRight(s[..|s| - 1]) else s
  }

  function TrimSpace(s: string): string {
    TrimRight(TrimLeft(s))
  }

  /** The statements that the three execution loops run, in order. */
  function NonBlank(parts: seq<string>): seq<string> {
    if parts == [] then []
    else
      var stmt := TrimSpace(parts[0]);
      (if stmt == "" then [] else [stmt]) + NonBlank(parts[1..])
  }

  function Statements(script: string): seq<string> {
    NonBlank(Split(script, ';'))
  }

  ghost predicate Blank(s: string) {
    forall i | 0 <= i < |s| :: IsSpace(s[i])
  }

  /** A statement as a script author writes it: not blank, already trimmed, no ';' inside. */
  ghost predicate Tidy(s: string) {
    s != "" && !IsSpace(s[0]) && !IsSpace(s[|s| - 1]) && Free(s, ';')
  }

  lemma {:induction false} NonBlankConcat(p: seq<string>, q: seq<string>)
    ensures NonBlank(p + q) == NonBlank(p) + NonBlank(q)
  {
    if p == [] {
      assert p + q == q;
    } else {
      assert (p + q)[1..] == p[1..] + q;
      NonBlankConcat(p[1..], q);
    }
  }

  /** Script splitting is a homomorphism from scripts under ';' to statement lists. */
  lemma StatementsConcat(a: string, b: string)
    ensures Statements(a + ";" + b) == Statements(a) + Statements(b)
  {
    SplitConcat(a, b, ';');
    NonBlankConcat(Split(a, ';'), Split(b, ';'));
  }

  lemma {:induction false} TrimBlank(s: string)
    requires Blank(s)
    ensures TrimSpace(s) == ""
  {
    if s != "" {
      assert Blank(s[1..]);
      TrimBlank(s[1..]);
    }
  }

  /** A blank segment contributes no statement, before or after any script. */
  lemma BlankSegmentsVanish(a: string, blank: string)
    requires Blank(blank)
    ensures Statements(a + ";" + blank) == Statements(a) == Statements(blank + ";" + a)
  {
    forall i | 0 <= i < |blank| ensures blank[i] != ';' { assert IsSpace(blank[i]); }
    SplitFree(blank, ';');
    TrimBlank(blank);
    assert NonBlank([blank]) == [] + NonBlank([blank][1..]);
    StatementsConcat(a, blank);
    StatementsConcat(blank, a);
  }

  lemma {:induction false} TidyUnchanged(stmts: seq<string>)
    requires forall i | 0 <= i < |stmts| :: Tidy(stmts[i])
    ensures NonBlank(stmts) == stmts
  {
    if stmts != [] {
      assert Tidy(stmts[0]);
      TidyUnchanged(stmts[1..]);
      assert stmts == [stmts[0]] + stmts[1..];
    }
  }

  /** Joining tidy statements with ';' and splitting again returns the same list. */
  lemma StatementsRoundTrip(stmts: seq<string>)
    requires |stmts| >= 1
    requires forall i | 0 <= i < |stmts| :: Tidy(stmts[i])
    ensures Statements(Join(stmts, ';')) == stmts
  {
    SplitJoin(stmts, ';');
    TidyUnchanged(stmts);
  }

  lemma BlankPrepends(s: string, n: nat)
    requires 0 < n <= |s| && IsSpace(s[0]) && Blank(s[1..][..n - 1])
    ensures Blank(s[..n])
  {
    forall i | 0 <= i < n ensures IsSpace(s[..n][i]) {
      if i > 0 { assert IsSpace(s[1..][..n - 1][i - 1]); }
    }
  }

  lemma {:induction false} TrimLeftStrips(s: string)
    ensures var t := TrimLeft(s); t == s[|s| - |t|..] && Blank(s[..|s| - |t|]) && (t != "" ==> !IsSpace(t[0]))
  {
    if s != "" && IsSpace(s[0]) {
      TrimLeftStrips(s[1..]);
      var n := |s| - |TrimLeft(s[1..])|;
      assert TrimLeft(s) == s[1..][n - 1..] == s[n..];
      BlankPrepends(s, n);
    }
  }

  lemma BlankExtends(s: string, n: nat)
    requires n < |s| && IsSpace(s[|s| - 1]) && Blank(s[..|s| - 1][n..])
    ensures Blank(s[n..])
  {
    forall i | 0 <= i < |s[n..]| ensures IsSpace(s[n..][i]) {
      if i < |s| - 1 - n { assert IsSpace(s[..|s| - 1][n..][i]); }
    }
  }

  lemma {:induction false} TrimRightStrips(s: string)
    ensures var t := TrimRight(s); t == s[..|t|] && Blank(s[|t|..]) && (t != "" ==> !IsSpace(t[|t| - 1]))
  {
    if s != "" && IsSpace(s[|s| - 1]) {
      var front := s[..|s| - 1];
      TrimRightStrips(front);
      var n := |TrimRight(front)|;
      assert TrimRight(s) == front[..n] == s[..n];
      BlankExtends(s, n);
    }
  }

  /** Trimming removes white space at both ends and nothing else. */
  lemma TrimSpaceStrips(s: string) returns (l: nat, r: nat)
    ensures l <= r <= |s| && TrimSpace(s) == s[l..r]
    ensures Blank(s[..l]) && Blank(s[r..])
    ensures l < r ==> !IsSpace(s[l]) && !IsSpace(s[r - 1])
  {
    var left := TrimLeft(s);
    TrimLeftStrips(s);
    TrimRightStrips(left);
    l := |s| - |left|;
    r := l + |TrimSpace(s)|;
    assert s[r..] == left[|TrimSpace(s)|..];
  }

  lemma TrimmedIsTidy(s: string)
    requires Free(s, ';')
    ensures TrimSpace(s) != "" ==> Tidy(TrimSpace(s))
  {
    var l, r := TrimSpaceStrips(s);
    if l < r {
      assert s[l..r][0] == s[l] && s[l..r][r - l - 1] == s[r - 1];
    }
  }

  lemma {:induction false} TrimmedPartsAreTidy(parts: seq<string>)
    requires forall i | 0 <= i < |parts| :: Free(parts[i], ';')
    ensures forall i | 0 <= i < |NonBlank(parts)| :: Tidy(NonBlank(parts)[i])
  {
    if parts != [] {
      TrimmedPartsAreTidy(parts[1..]);
      assert Free(parts[0], ';');
      TrimmedIsTidy(parts[0]);
    }
  }

  /** Whatever the script, each statement handed to the engine is tidy. */
  lemma StatementsAreTidy(script: string)
    ensures forall i | 0 <= i < |Statements(script)| :: Tidy(Statements(script)[i])
  {
    JoinSplit(script, ';');
    TrimmedPartsAreTidy(Split(script, ';'));
  }

  // ---------- Every segment that is not blank is a statement

  /** The statement is the segment between its outermost characters that are not white space. */
  ghost predicate TrimmedFrom(segment: string, stmt: string) {
    exists l: nat, r: nat | l < r <= |segment| ::
      stmt == segment[l..r] && Blank(segment[..l]) && Blank(segment[r..]) &&
      !IsSpace(segment[l]) && !IsSpace(segment[r - 1])
  }

  lemma NotBlankTrims(s: string)
    ensures Blank(s) <==> TrimSpace(s) == ""
    ensures !Blank(s) ==> TrimmedFrom(s, TrimSpace(s))
  {
    var l, r := TrimSpaceStrips(s);
    if l == r {
      forall i | 0 <= i < |s| ensures IsSpace(s[i]) {
        assert if i < l then IsSpace(s[..l][i]) else IsSpace(s[r..][i - r]);
      }
    } else {
      assert s[l..r] != "" && !IsSpace(s[l]);
    }
  }

  /** A segment that is not blank runs as one statement: itself without the white space around it. */
  lemma SegmentRuns(segment: string) returns (l: nat, r: nat)
    requires Free(segment, ';') && !Blank(segment)
    ensures l < r <= |segment| && Statements(segment) == [segment[l..r]]
    ensures Blank(segment[..l]) && Blank(segment[r..]) && !IsSpace(segment[l]) && !IsSpace(segment[r - 1])
  {
    SplitFree(segment, ';');
    NotBlankTrims(segment);
    l, r := TrimSpaceStrips(segment);
    assert NonBlank([segment]) == [TrimSpace(segment)] + NonBlank([segment][1..]);
  }

  /** at lists, in ascending order, the positions of the segments that the statements come from. */
  ghost predicate ComesFrom(stmts: seq<string>, segments: seq<string>, at: seq<nat>) {
    |at| == |stmts| && (forall j, k | 0 <= j < k < |at| :: at[j] < at[k]) &&
    forall k | 0 <= k < |at| :: at[k] < |segments| && TrimmedFrom(segments[at[k]], stmts[k])
  }

  lemma Shifted(at: seq<nat>) returns (later: seq<nat>)
    ensures |later| == |at| && forall k | 0 <= k < |at| :: later[k] == at[k] + 1
    ensures forall i: nat :: i in later <==> i >= 1 && i - 1 in at
  {
    later := seq(|at|, k requires 0 <= k < |at| => at[k] + 1);
    forall i: nat ensures i in later <==> i >= 1 && i - 1 in at {
      if i >= 1 && i - 1 in at {
        var k :| 0 <= k < |at| && at[k] == i - 1;
        assert later[k] == i;
      }
    }
  }

  lemma ComesFromLater(stmts: seq<string>, segments: seq<string>, at: seq<nat>, later: seq<nat>)
    requires segments != [] && ComesFrom(stmts, segments[1..], at)
    requires |later| == |at| && forall k | 0 <= k < |at| :: later[k] == at[k] + 1
    ensures ComesFrom(stmts, segments, later)
  {
    forall k | 0 <= k < |later| ensures later[k] < |segments| && TrimmedFrom(segments[later[k]], stmts[k]) {
      assert TrimmedFrom(segments[1..][at[k]], stmts[k]);
    }
  }

  lemma ComesFromFirst(stmt: string, stmts: seq<string>, segments: seq<string>, at: seq<nat>)
    requires segments != [] && TrimmedFrom(segments[0], stmt) && ComesFrom(stmts, segments, at)
    requires forall k | 0 <= k < |at| :: at[k] >= 1
    ensures ComesFrom([stmt] + stmts, segments, [0] + at)
  {
    var all, from: seq<nat> := [stmt] + stmts, [0] + at;
    forall k | 0 <= k < |from| ensures from[k] < |segments| && TrimmedFrom(segments[from[k]], all[k]) {
      if k > 0 { assert TrimmedFrom(segments[at[k - 1]], stmts[k - 1]); }
    }
  }

  /** at lists exactly the segments that are not blank. */
  ghost predicate ListsNonBlank(segments: seq<string>, at: seq<nat>) {
    forall i: nat | i < |segments| :: i in at <==> !Blank(segments[i])
  }

  lemma ListsFirst(segments: seq<string>, at: seq<nat>, later: seq<nat>)
    requires segments != [] && ListsNonBlank(segments[1..], at)
    requires forall i: nat :: i in later <==> i >= 1 && i - 1 in at
    ensures ListsNonBlank(segments, if Blank(segments[0]) then later else [0] + later)
  {
    var all := if Blank(segments[0]) then later else [0] + later;
    forall i: nat | i < |segments| ensures i in all <==> !Blank(segments[i]) {
      if i > 0 { assert segments[1..][i - 1] == segments[i]; }
    }
  }

  lemma {:induction false} NonBlankComesFrom(segments: seq<string>) returns (at: seq<nat>)
    ensures ComesFrom(NonBlank(segments), segments, at) && ListsNonBlank(segments, at)
  {
    if segments == [] {
      at := [];
    } else {
      var rest := NonBlankComesFrom(segments[1..]);
      var stmts := NonBlank(segments[1..]);
      at := Shifted(rest);
      ComesFromLater(stmts, segments, rest, at);
      ListsFirst(segments, rest, at);
      NotBlankTrims(segments[0]);
      if Blank(segments[0]) {
        assert [] + stmts == stmts;
      } else {
        ComesFromFirst(TrimSpace(segments[0]), stmts, segments, at);
        at := [0] + at;
      }
    }
  }

  /** Whatever the script: its statements are its segments that are not blank, each of them once, in order and trimmed
      of the white space around it. */
  lemma StatementsInOrder(script: string) returns (segments: seq<string>, at: seq<nat>)
    ensures |segments| >= 1 && Join(segments, ';') == script && forall i | 0 <= i < |segments| :: Free(segments[i], ';')
    ensures ComesFrom(Statements(script), segments, at) && ListsNonBlank(segments, at)
  {
    segments := Split(script, ';');
    JoinSplit(script, ';');
    at := NonBlankComesFrom(segments);
  }
}
