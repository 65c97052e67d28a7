/** The scanner read left to right from any state, so that texts can be scanned piece by piece. */
module ScannerFold {
  import opened Text
  import opened Scanner

  function Run(st: Scan, s: string): Scan
    decreases |s|
  {
    if s == "" then st else Run(Step(st, s[0]), s[1..])
  }

  lemma {:induction false} RunConcat(st: Scan, a: string, b: string)
    ensures Run(st, a + b) == Run(Run(st, a), b)
    decreases |a|
  {
    if a == "" {
      assert a + b == b;
    } else {
      assert (a + b)[1..] == a[1..] + b;
      RunConcat(Step(st, a[0]), a[1..], b);
    }
  }

  lemma {:induction false} ScanAtIsRun(s: string, i: nat)
    requires i <= |s|
    ensures ScanAt(s, i) == Run(Start, s[..i])
  {
    if i > 0 {
      ScanAtIsRun(s, i - 1);
      assert s[..i] == s[..i - 1] + [s[i - 1]];
      RunConcat(Start, s[..i - 1], [s[i - 1]]);
      assert [s[i - 1]][1..] == "";
    }
  }

  /** The parts still to come: `cur` has been read of the current part, `rest` is unread. */
  function SplitFrom(st: Scan, cur: string, rest: string, sep: string): seq<string>
    requires sep != ""
    decreases |rest|
  {
    if rest == "" then Emit(cur)
    else if CutHere(st, rest, sep) then Emit(cur) + SplitFrom(Run(st, sep), "", rest[|sep|..], sep)
    else SplitFrom(Step(st, rest[0]), cur + [rest[0]], rest[1..], sep)
  }

  predicate CutHere(st: Scan, rest: string, sep: string) {
    st.quote == None && st.depth == 0 && sep <= rest
  }

  lemma {:induction false} SplitFromIsSplit(expr: string, sep: string, start: nat, i: nat)
    requires start <= i <= |expr| && sep != ""
    ensures PartsFrom(expr, sep, start, i) == SplitFrom(ScanAt(expr, i), expr[start..i], expr[i..], sep)
    decreases |expr| - i
  {
    hide Emit, ScanAt;
    var rest := expr[i..];
    if i + |sep| > |expr| {
      TooShortToCut(ScanAt(expr, i), expr[start..i], rest, sep);
      assert expr[start..i] + rest == expr[start..];
    } else if Candidate(expr, sep, i) {
      SplitFromIsSplit(expr, sep, i + |sep|, i + |sep|);
      RunPast(expr, sep, i);
      assert rest[|sep|..] == expr[i + |sep|..] && expr[i + |sep|..i + |sep|] == "";
      assert rest[..|sep|] == sep;
      assert CutHere(ScanAt(expr, i), rest, sep);
    } else {
      SplitFromIsSplit(expr, sep, start, i + 1);
      ScanNext(expr, i);
      assert expr[start..i] + [rest[0]] == expr[start..i + 1];
      assert rest[1..] == expr[i + 1..];
      assert sep <= rest ==> expr[i..i + |sep|] == sep;
    }
  }

  lemma ScanNext(expr: string, i: nat)
    requires i < |expr|
    ensures ScanAt(expr, i + 1) == Step(ScanAt(expr, i), expr[i])
  {
  }

  lemma RunPast(expr: string, sep: string, i: nat)
    requires i <= |expr| && StandsAt(expr, sep, i)
    ensures ScanAt(expr, i + |sep|) == Run(ScanAt(expr, i), sep)
  {
    ScanAtIsRun(expr, i);
    ScanAtIsRun(expr, i + |sep|);
    assert expr[..i + |sep|] == expr[..i] + sep;
    RunConcat(Start, expr[..i], sep);
  }

  lemma {:induction false} TooShortToCut(st: Scan, cur: string, rest: string, sep: string)
    requires |rest| < |sep|
    ensures SplitFrom(st, cur, rest, sep) == Emit(cur + rest)
    decreases |rest|
  {
    hide Emit, Step;
    if rest == "" {
      assert cur + rest == cur;
    } else {
      TooShortToCut(Step(st, rest[0]), cur + [rest[0]], rest[1..], sep);
      assert cur + [rest[0]] + rest[1..] == cur + rest;
    }
  }

  lemma SplitFromStart(expr: string, sep: string)
    requires sep != ""
    ensures SplitOutside(expr, sep) == SplitFrom(Start, "", expr, sep)
  {
    SplitFromIsSplit(expr, sep, 0, 0);
    assert expr[0..] == expr && expr[0..0] == "";
  }

  // ----- stretches without a cut -----

  /** No cut falls inside `u` when it is scanned from `st` and followed by `rest`. */
  predicate NoCut(st: Scan, u: string, sep: string, rest: string)
    decreases |u|
  {
    u == "" || (!CutHere(st, u + rest, sep) && NoCut(Step(st, u[0]), u[1..], sep, rest))
  }

  lemma {:induction false} NoCutConcat(st: Scan, a: string, b: string, sep: string, rest: string)
    ensures NoCut(st, a + b, sep, rest) <==> NoCut(st, a, sep, b + rest) && NoCut(Run(st, a), b, sep, rest)
    decreases |a|
  {
    if a == "" {
      assert a + b == b;
    } else {
      assert (a + b)[1..] == a[1..] + b;
      assert a + b + rest == a + (b + rest);
      hide CutHere, Step;
      NoCutConcat(Step(st, a[0]), a[1..], b, sep, rest);
    }
  }

  lemma {:induction false} SplitPastNoCut(st: Scan, cur: string, u: string, rest: string, sep: string)
    requires sep != "" && NoCut(st, u, sep, rest)
    ensures SplitFrom(st, cur, u + rest, sep) == SplitFrom(Run(st, u), cur + u, rest, sep)
    decreases |u|
  {
    hide CutHere, Step, Emit;
    if u == "" {
      assert u + rest == rest && cur + u == cur;
    } else {
      assert (u + rest)[1..] == u[1..] + rest;
      assert cur + [u[0]] + u[1..] == cur + u;
      SplitPastNoCut(Step(st, u[0]), cur + [u[0]], u[1..], rest, sep);
    }
  }

  /** A trimmed text without a cut is its own only part. */
  lemma SingleString(u: string, sep: string)
    requires sep != "" && u != "" && Trimmed(u) && NoCut(Start, u, sep, "")
    ensures SplitOutside(u, sep) == [u]
  {
    SplitFromStart(u, sep);
    assert u + "" == u && "" + u == u;
    SplitPastNoCut(Start, "", u, "", sep);
    TrimOfTrimmed(u);
  }

  lemma CutFrom(cur: string, sep: string, rest: string)
    requires sep != "" && Run(Start, sep) == Start
    ensures SplitFrom(Start, cur, sep + rest, sep) == Emit(cur) + SplitFrom(Start, "", rest, sep)
  {
    hide Run, Emit;
    assert (sep + rest)[|sep|..] == rest;
    assert CutHere(Start, sep + rest, sep);
  }

  /** A part, a separator, and the rest. */
  lemma SplitHead(u: string, sep: string, rest: string)
    requires sep != "" && u != "" && Trimmed(u) && NoCut(Start, u, sep, sep + rest)
    requires Run(Start, u) == Start && Run(Start, sep) == Start
    ensures SplitOutside(u + sep + rest, sep) == [u] + SplitOutside(rest, sep)
  {
    hide SplitOutside, SplitFrom, NoCut, Run, Trimmed, Trim;
    SplitFromStart(u + sep + rest, sep);
    SplitFromStart(rest, sep);
    assert u + sep + rest == u + (sep + rest) && "" + u == u;
    SplitPastNoCut(Start, "", u, sep + rest, sep);
    TrimOfTrimmed(u);
    CutFrom(u, sep, rest);
  }
}
