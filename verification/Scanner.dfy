/** The byte scanner of the condition language: quotes, escapes, parentheses, separators. */
module Scanner {
  import opened Text

  // ----- the scanner as a fold over the text -----

  /** `quote`: the open quote character. `depth`: open parentheses, floored at zero.
      `escaped`: an odd number of backslashes stands immediately before. */
  datatype Scan = Scan(quote: Option<char>, depth: nat, escaped: bool)

  const Start := Scan(None, 0, false)

  predicate IsQuote(c: char) { c == '"' || c == '\'' }

  function NextQuote(st: Scan, c: char): Option<char> {
    if !IsQuote(c) || st.escaped then st.quote
    else if st.quote == Some(c) then None
    else if st.quote == None then Some(c)
    else st.quote
  }

  function NextDepth(st: Scan, c: char): nat {
    if NextQuote(st, c).Some? then st.depth
    else if c == '(' then st.depth + 1
    else if c == ')' && st.depth > 0 then st.depth - 1
    else st.depth
  }

  function Step(st: Scan, c: char): Scan {
    Scan(NextQuote(st, c), NextDepth(st, c), c == '\\' && !st.escaped)
  }

  /** The scanner's state just before index `i`: a definition over the prefix `s[..i]`. */
  function ScanAt(s: string, i: nat): Scan
    requires i <= |s|
  {
    if i == 0 then Start else Step(ScanAt(s, i - 1), s[i - 1])
  }

  // ----- declarative readings of the three components -----

  /** Number of backslashes standing immediately before position `i`. */
  function BackslashRun(s: string, i: nat): (n: nat)
    requires i <= |s|
    ensures n <= i && (forall k :: i - n <= k < i ==> s[k] == '\\')
    ensures n < i ==> s[i - n - 1] != '\\'
  {
    if i > 0 && s[i - 1] == '\\' then 1 + BackslashRun(s, i - 1) else 0
  }

  predicate Escaped(s: string, i: nat)
    requires i <= |s|
  {
    BackslashRun(s, i) % 2 == 1
  }

  lemma {:induction false} EscapedIsParity(s: string, i: nat)
    requires i <= |s|
    ensures ScanAt(s, i).escaped == Escaped(s, i)
  {
    if i > 0 {
      EscapedIsParity(s, i - 1);
    }
  }

  /** +1, -1 or 0: what the character at `i` does to the nesting, quoted text counting for nothing. */
  function Nesting(s: string, i: nat): int
    requires i < |s|
  {
    if NextQuote(ScanAt(s, i), s[i]).Some? then 0
    else if s[i] == '(' then 1
    else if s[i] == ')' then -1
    else 0
  }

  /** Unquoted opening minus closing parentheses in `s[i..j]`. */
  function Excess(s: string, i: nat, j: nat): int
    requires i <= j <= |s|
    decreases j - i
  {
    if i == j then 0 else Excess(s, i, j - 1) + Nesting(s, j - 1)
  }

  /** The floored depth at `j` is the largest excess of any stretch of text ending at `j`. */
  lemma {:induction false} DepthIsLargestExcess(s: string, j: nat) returns (from: nat)
    requires j <= |s|
    ensures from <= j && ScanAt(s, j).depth == Excess(s, from, j)
    ensures forall i :: 0 <= i <= j ==> Excess(s, i, j) <= ScanAt(s, j).depth
  {
    if j == 0 {
      from := 0;
    } else {
      from := DepthIsLargestExcess(s, j - 1);
      if Nesting(s, j - 1) == -1 && ScanAt(s, j - 1).depth == 0 {
        from := j;
      }
    }
  }

  /** Open quote characters: an unescaped quote opens when none is open and closes only its own kind. */
  lemma QuoteTransitions(s: string, i: nat)
    requires i < |s|
    ensures var before, after := ScanAt(s, i).quote, ScanAt(s, i + 1).quote;
            && (after == before <==> !(IsQuote(s[i]) && !Escaped(s, i) && (before == None || before == Some(s[i]))))
            && (after != before ==>
                (after == None <==> before == Some(s[i])) && (after == Some(s[i]) <==> before == None))
  {
    EscapedIsParity(s, i);
  }

  // ----- the index loops of the source -----

  method IsEscaped(expr: string, idx: nat) returns (r: bool)
    requires idx <= |expr|
    ensures r == Escaped(expr, idx)
  {
    var count := 0;
    var i := idx - 1;
    while i >= 0
      invariant -1 <= i < idx && count == idx - 1 - i
      invariant BackslashRun(expr, idx) == count + BackslashRun(expr, i + 1)
    {
      if expr[i] != '\\' {
        break;
      }
      count := count + 1;
      i := i - 1;
    }
    r := count % 2 == 1;
  }

  /** The `inQuote` flag and `quoteChar` byte that the scanning loops pass by pointer. */
  class QuoteState {
    var inQuote: bool
    var quoteChar: char

    constructor ()
      ensures Open() == None
    {
      inQuote, quoteChar := false, '\0';
    }

    function Open(): Option<char>
      reads this
    {
      if inQuote then Some(quoteChar) else None
    }

    /** Quote entry and exit at `idx`; the result says whether `idx` is inside quotes. */
    method Update(expr: string, idx: nat) returns (inside: bool)
      requires idx < |expr|
      requires Open() == ScanAt(expr, idx).quote
      modifies this
      ensures Open() == ScanAt(expr, idx + 1).quote == NextQuote(ScanAt(expr, idx), expr[idx])
      ensures inside == Open().Some?
    {
      EscapedIsParity(expr, idx);
      var ch := expr[idx];
      if ch == '"' || ch == '\'' {
        var escaped := IsEscaped(expr, idx);
        if !escaped {
          if inQuote && ch == quoteChar {
            inQuote := false;
          } else if !inQuote {
            inQuote := true;
            quoteChar := ch;
          }
        }
      }
      inside := inQuote;
    }
  }

  // ----- splitting at a separator -----

  /** What the parser splits at holds no quotes and no parentheses. */
  predicate PlainSeparator(sep: string) {
    forall i :: 0 <= i < |sep| ==> !IsQuote(sep[i]) && sep[i] != '(' && sep[i] != ')'
  }

  const OrSep := " OR "
  const AndSep := " AND "

  predicate StandsAt(expr: string, needle: string, i: nat) {
    i + |needle| <= |expr| && expr[i..i + |needle|] == needle
  }

  /** `sep` stands at index `i`, outside quotes and parentheses. */
  predicate Candidate(expr: string, sep: string, i: nat)
    requires i <= |expr|
  {
    ScanAt(expr, i).quote == None && ScanAt(expr, i).depth == 0 && StandsAt(expr, sep, i)
  }

  function Emit(part: string): seq<string> {
    if Trim(part) == "" then [] else [Trim(part)]
  }

  /** What is still to be produced at index `i`, the current part having begun at `start`. */
  function PartsFrom(expr: string, sep: string, start: nat, i: nat): seq<string>
    requires start <= i <= |expr| && sep != ""
    decreases |expr| - i
  {
    if i + |sep| > |expr| then Emit(expr[start..])
    else if Candidate(expr, sep, i) then Emit(expr[start..i]) + PartsFrom(expr, sep, i + |sep|, i + |sep|)
    else PartsFrom(expr, sep, start, i + 1)
  }

  function SplitOutside(expr: string, sep: string): seq<string>
    requires sep != ""
  {
    PartsFrom(expr, sep, 0, 0)
  }

  lemma {:induction false} SeparatorKeepsState(expr: string, sep: string, i: nat, k: nat)
    requires sep != "" && PlainSeparator(sep) && i <= |expr| && Candidate(expr, sep, i) && k <= |sep|
    ensures i + |sep| <= |expr|
    ensures ScanAt(expr, i + k).quote == None && ScanAt(expr, i + k).depth == 0
  {
    if k > 0 {
      SeparatorKeepsState(expr, sep, i, k - 1);
      assert expr[i..i + |sep|][k - 1] == expr[i + k - 1];
    }
  }

  lemma CutStep(expr: string, sep: string, start: nat, i: nat, parts: seq<string>)
    requires sep != "" && PlainSeparator(sep) && start <= i <= |expr| && Candidate(expr, sep, i)
    ensures i + |sep| <= |expr|
    ensures ScanAt(expr, i + |sep|).quote == None && ScanAt(expr, i + |sep|).depth == 0
    ensures parts + PartsFrom(expr, sep, start, i)
         == parts + Emit(expr[start..i]) + PartsFrom(expr, sep, i + |sep|, i + |sep|)
  {
    SeparatorKeepsState(expr, sep, i, |sep|);
  }

  lemma CharStep(expr: string, sep: string, start: nat, i: nat)
    requires sep != "" && start <= i <= |expr| - |sep| && !Candidate(expr, sep, i)
    ensures PartsFrom(expr, sep, start, i) == PartsFrom(expr, sep, start, i + 1)
    ensures ScanAt(expr, i + 1).quote == NextQuote(ScanAt(expr, i), expr[i])
    ensures ScanAt(expr, i + 1).depth == NextDepth(ScanAt(expr, i), expr[i])
  {
  }

  lemma TailStep(expr: string, sep: string, start: nat, i: nat)
    requires start <= i <= |expr| < i + |sep|
    ensures PartsFrom(expr, sep, start, i) == Emit(expr[start..])
  {
  }

  /** A separator begins with an ordinary character. */
  lemma SeparatorHead(expr: string, sep: string, i: nat)
    requires sep != "" && PlainSeparator(sep) && StandsAt(expr, sep, i)
    ensures expr[i] != '(' && expr[i] != ')' && NextQuote(ScanAt(expr, i), expr[i]) == ScanAt(expr, i).quote
  {
    assert expr[i..i + |sep|][0] == expr[i];
  }

  /** What one turn of the loop does, at a cut and elsewhere. */
  lemma ScanStep(expr: string, sep: string, start: nat, i: nat, parts: seq<string>)
    requires sep != "" && PlainSeparator(sep) && start <= i <= |expr| - |sep|
    ensures var st, open := ScanAt(expr, i), NextQuote(ScanAt(expr, i), expr[i]);
            if open.None? && expr[i] != '(' && expr[i] != ')' && st.depth == 0 && StandsAt(expr, sep, i)
            then st.quote.None? && ScanAt(expr, i + |sep|).quote.None? && ScanAt(expr, i + |sep|).depth == 0
                 && parts + PartsFrom(expr, sep, start, i) == parts + Emit(expr[start..i])
                     + PartsFrom(expr, sep, i + |sep|, i + |sep|)
            else PartsFrom(expr, sep, start, i) == PartsFrom(expr, sep, start, i + 1)
                 && ScanAt(expr, i + 1).quote == open && ScanAt(expr, i + 1).depth == NextDepth(st, expr[i])
  {
    if StandsAt(expr, sep, i) { SeparatorHead(expr, sep, i); }
    hide PartsFrom, ScanAt, StandsAt, PlainSeparator, NextQuote, NextDepth, Emit;
    if Candidate(expr, sep, i) { CutStep(expr, sep, start, i, parts); } else { CharStep(expr, sep, start, i); }
  }

  /** Keeps a piece, trimmed, unless nothing is left of it. */
  method AppendPart(parts: seq<string>, piece: string) returns (r: seq<string>)
    ensures r == parts + Emit(piece)
  {
    var part := Trim(piece);
    r := if part != "" then parts + [part] else parts;
  }

  method SplitOutsideParens(expr: string, sep: string) returns (parts: seq<string>)
    requires sep != "" && PlainSeparator(sep)
    ensures parts == SplitOutside(expr, sep)
  {
    var depth, start := 0, 0;
    parts := [];
    var quote := new QuoteState();
    var i := 0;
    assert ScanAt(expr, i) == Start && PartsFrom(expr, sep, 0, 0) == SplitOutside(expr, sep);
    hide PartsFrom, ScanAt, StandsAt, PlainSeparator, Trim, NextQuote, Emit, SplitOutside, Candidate;
    while i <= |expr| - |sep|
      invariant 0 <= start <= i <= |expr|
      invariant quote.Open() == ScanAt(expr, i).quote && depth == ScanAt(expr, i).depth
      invariant parts + PartsFrom(expr, sep, start, i) == SplitOutside(expr, sep)
    {
      ScanStep(expr, sep, start, i, parts);
      var inside := quote.Update(expr, i);
      if inside {
        i := i + 1;
      } else if expr[i] == '(' {
        depth := depth + 1;
        i := i + 1;
      } else if expr[i] == ')' {
        if depth > 0 {
          depth := depth - 1;
        }
        i := i + 1;
      } else if depth == 0 && StandsAt(expr, sep, i) {
        parts := AppendPart(parts, expr[start..i]);
        i := i + |sep|;
        start := i;
      } else {
        i := i + 1;
      }
    }
    TailStep(expr, sep, start, i);
    parts := AppendPart(parts, expr[start..]);
  }

  // ----- where the cuts fall -----

  /** `cuts` are separator occurrences outside quotes and parentheses that do not overlap, and every
      such occurrence from `from` on begins inside one of them. */
  ghost predicate LeftmostCuts(expr: string, sep: string, from: nat, cuts: seq<nat>) {
    && (forall k :: 0 <= k < |cuts| ==> from <= cuts[k] && cuts[k] + |sep| <= |expr| && Candidate(expr, sep, cuts[k]))
    && (forall a, b :: 0 <= a < b < |cuts| ==> cuts[a] + |sep| <= cuts[b])
    && (forall j :: from <= j <= |expr| && Candidate(expr, sep, j) ==> Covered(cuts, |sep|, j))
  }

  ghost predicate Covered(cuts: seq<nat>, width: nat, j: nat) {
    exists k :: 0 <= k < |cuts| && cuts[k] <= j < cuts[k] + width
  }

  /** The stretches between the cuts, trimmed, empty ones dropped. */
  function Pieces(expr: string, sep: string, start: nat, cuts: seq<nat>): seq<string>
    requires start <= |expr|
    requires forall k :: 0 <= k < |cuts| ==> start <= cuts[k] && cuts[k] + |sep| <= |expr|
    requires forall a, b :: 0 <= a < b < |cuts| ==> cuts[a] + |sep| <= cuts[b]
    decreases |cuts|
  {
    if cuts == [] then Emit(expr[start..])
    else Emit(expr[start..cuts[0]]) + Pieces(expr, sep, cuts[0] + |sep|, cuts[1..])
  }

  /** Splitting yields exactly the pieces between the leftmost non-overlapping separators. */
  lemma SplitCutsExactly(expr: string, sep: string, cuts: seq<nat>)
    requires sep != "" && LeftmostCuts(expr, sep, 0, cuts)
    ensures SplitOutside(expr, sep) == Pieces(expr, sep, 0, cuts)
  {
    PartsAreThePieces(expr, sep, 0, 0, cuts);
  }

  lemma CandidateFits(expr: string, sep: string, i: nat)
    requires i <= |expr| && Candidate(expr, sep, i)
    ensures i + |sep| <= |expr|
  {
  }

  lemma CoveredByRest(cuts: seq<nat>, width: nat, j: nat)
    requires cuts != [] && cuts[0] + width <= j && Covered(cuts, width, j)
    ensures Covered(cuts[1..], width, j)
  {
    var k :| 0 <= k < |cuts| && cuts[k] <= j < cuts[k] + width;
    assert cuts[1..][k - 1] == cuts[k];
  }

  lemma CoveredWithFirst(first: nat, rest: seq<nat>, width: nat, j: nat)
    requires first <= j < first + width || Covered(rest, width, j)
    ensures Covered([first] + rest, width, j)
  {
    var cuts := [first] + rest;
    if first <= j < first + width {
      assert cuts[0] == first;
    } else {
      var k :| 0 <= k < |rest| && rest[k] <= j < rest[k] + width;
      assert cuts[k + 1] == rest[k];
    }
  }

  lemma DropFirstCut(expr: string, sep: string, i: nat, cuts: seq<nat>)
    requires sep != "" && i <= |expr| && Candidate(expr, sep, i) && LeftmostCuts(expr, sep, i, cuts)
    ensures cuts != [] && cuts[0] == i && LeftmostCuts(expr, sep, i + |sep|, cuts[1..])
  {
    hide Candidate;
    assert Covered(cuts, |sep|, i);
    hide Covered;
    forall j | i + |sep| <= j <= |expr| && Candidate(expr, sep, j)
      ensures Covered(cuts[1..], |sep|, j)
    {
      CoveredByRest(cuts, |sep|, j);
    }
  }

  lemma SkipNonCut(expr: string, sep: string, i: nat, cuts: seq<nat>)
    requires sep != "" && i < |expr| && !Candidate(expr, sep, i) && LeftmostCuts(expr, sep, i, cuts)
    ensures LeftmostCuts(expr, sep, i + 1, cuts)
  {
    hide Candidate, Covered;
  }

  lemma {:induction false} PartsAreThePieces(expr: string, sep: string, start: nat, i: nat, cuts: seq<nat>)
    requires sep != "" && start <= i <= |expr| && LeftmostCuts(expr, sep, i, cuts)
    ensures PartsFrom(expr, sep, start, i) == Pieces(expr, sep, start, cuts)
    decreases |expr| - i
  {
    hide Candidate, Covered, Emit;
    if i + |sep| > |expr| {
    } else if Candidate(expr, sep, i) {
      DropFirstCut(expr, sep, i, cuts);
      assert Pieces(expr, sep, start, cuts) == Emit(expr[start..i]) + Pieces(expr, sep, i + |sep|, cuts[1..]);
      PartsAreThePieces(expr, sep, i + |sep|, i + |sep|, cuts[1..]);
    } else {
      SkipNonCut(expr, sep, i, cuts);
      PartsAreThePieces(expr, sep, start, i + 1, cuts);
    }
  }

  lemma AddFirstCut(expr: string, sep: string, from: nat, rest: seq<nat>)
    requires sep != "" && from <= |expr| && Candidate(expr, sep, from)
    requires LeftmostCuts(expr, sep, from + |sep|, rest)
    ensures LeftmostCuts(expr, sep, from, [from] + rest)
  {
    hide Candidate, Covered;
    CandidateFits(expr, sep, from);
    var cuts := [from] + rest;
    forall j | from <= j <= |expr| && Candidate(expr, sep, j)
      ensures Covered(cuts, |sep|, j)
    {
      if j >= from + |sep| { assert Covered(rest, |sep|, j); }
      CoveredWithFirst(from, rest, |sep|, j);
    }
  }

  /** Such cuts always exist. */
  lemma {:induction false} LeftmostCutsExist(expr: string, sep: string, from: nat) returns (cuts: seq<nat>)
    requires sep != "" && from <= |expr|
    ensures LeftmostCuts(expr, sep, from, cuts)
    decreases |expr| - from
  {
    hide ScanAt;
    if from + |sep| > |expr| {
      cuts := [];
    } else if Candidate(expr, sep, from) {
      var rest := LeftmostCutsExist(expr, sep, from + |sep|);
      AddFirstCut(expr, sep, from, rest);
      cuts := [from] + rest;
    } else {
      cuts := LeftmostCutsExist(expr, sep, from + 1);
    }
  }

  /** Every part is trimmed and non-empty; when there are several, each is strictly shorter than the text. */
  lemma PartsAreShorter(expr: string, sep: string)
    requires sep != ""
    ensures var parts := SplitOutside(expr, sep);
            && (forall p :: p in parts ==> p != "" && Trimmed(p) && |p| <= |expr|)
            && (|parts| > 1 ==> forall p :: p in parts ==> |p| < |expr|)
  {
    PartsFromShorter(expr, sep, 0, 0);
  }

  lemma {:induction false} PartsFromShorter(expr: string, sep: string, start: nat, i: nat)
    requires start <= i <= |expr| && sep != ""
    ensures var parts := PartsFrom(expr, sep, start, i);
            && (forall p :: p in parts ==> p != "" && Trimmed(p) && |p| <= |expr| - start)
            && (|parts| > 1 ==> forall p :: p in parts ==> |p| < |expr| - start)
    decreases |expr| - i
  {
    hide Trim, Trimmed, Candidate, ScanAt, StandsAt;
    if i + |sep| > |expr| {
      var _, _ := TrimSplits(expr[start..]);
    } else if Candidate(expr, sep, i) {
      var _, _ := TrimSplits(expr[start..i]);
      CandidateFits(expr, sep, i);
      PartsFromShorter(expr, sep, i + |sep|, i + |sep|);
    } else {
      PartsFromShorter(expr, sep, start, i + 1);
    }
  }

  // ----- finding an operator -----

  /** First index from `i` on where `needle` stands and the scanner is not inside quotes. */
  function FindFrom(expr: string, needle: string, i: nat): Option<nat>
    requires i <= |expr| && needle != ""
    decreases |expr| - i
  {
    if i + |needle| > |expr| then None
    else if ScanAt(expr, i + 1).quote == None && StandsAt(expr, needle, i) then Some(i)
    else FindFrom(expr, needle, i + 1)
  }

  function FindOperator(expr: string, op: string): Option<nat> {
    if op == "" then None else FindFrom(expr, " " + op + " ", 0)
  }

  lemma {:induction false} FindFromIsFirst(expr: string, needle: string, i: nat)
    requires i <= |expr| && needle != ""
    ensures var r := FindFrom(expr, needle, i);
            && (r.Some? ==>
                i <= r.value < |expr| && ScanAt(expr, r.value + 1).quote == None && StandsAt(expr, needle, r.value))
            && (forall j :: i <= j < (if r.Some? then r.value else |expr|) ==>
                !(ScanAt(expr, j + 1).quote == None && StandsAt(expr, needle, j)))
    decreases |expr| - i
  {
    hide ScanAt;
    if i + |needle| <= |expr| {
      FindFromIsFirst(expr, needle, i + 1);
    }
  }

  method FindOperatorOutsideQuotes(expr: string, op: string) returns (idx: int)
    ensures idx == match FindOperator(expr, op) case Some(i) => i case None => -1
  {
    if op == "" {
      return -1;
    }
    var needle := " " + op + " ";
    if |expr| < |needle| {
      return -1;
    }
    var quote := new QuoteState();
    var i := 0;
    assert ScanAt(expr, 0) == Start;
    hide ScanAt;
    while i <= |expr| - |needle|
      invariant 0 <= i <= |expr|
      invariant quote.Open() == ScanAt(expr, i).quote
      invariant FindFrom(expr, needle, i) == FindFrom(expr, needle, 0)
    {
      var inside := quote.Update(expr, i);
      if !inside && expr[i..i + |needle|] == needle {
        return i;
      }
      i := i + 1;
    }
    return -1;
  }

  // ----- outer parentheses -----

  /** Opening minus closing parentheses in `s[..i]`, quoted or not. */
  function Balance(s: string, i: nat): int
    requires i <= |s|
  {
    if i == 0 then 0
    else Balance(s, i - 1) + (if s[i - 1] == '(' then 1 else if s[i - 1] == ')' then -1 else 0)
  }

  /** The first character's parenthesis is closed by the last one, counting quoted parentheses too. */
  predicate OuterPair(s: string) {
    && |s| >= 2 && s[0] == '(' && s[|s| - 1] == ')'
    && Balance(s, |s|) == 0
    && (forall i :: 0 < i < |s| ==> Balance(s, i) >= 1)
  }

  function Strip(expr: string): (r: string)
    ensures |r| <= |expr|
  {
    var s := Trim(expr);
    if OuterPair(s) then s[1..|s| - 1] else s
  }

  method StripOuterParens(input: string) returns (r: string)
    ensures r == Strip(input)
  {
    var expr := Trim(input);
    if |expr| < 2 {
      return expr;
    }
    if expr[0] != '(' || expr[|expr| - 1] != ')' {
      return expr;
    }
    var depth := 0;
    var i := 0;
    while i < |expr|
      invariant 0 <= i <= |expr| && depth == Balance(expr, i)
      invariant forall k :: 0 < k <= i && k < |expr| ==> Balance(expr, k) >= 1
    {
      if expr[i] == '(' {
        depth := depth + 1;
      } else if expr[i] == ')' {
        depth := depth - 1;
        if depth == 0 && i != |expr| - 1 {
          assert Balance(expr, i + 1) == 0;
          return expr;
        }
      }
      i := i + 1;
    }
    if depth == 0 {
      return expr[1..|expr| - 1];
    }
    return expr;
  }
}
