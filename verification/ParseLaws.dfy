/** What a comparison's text parses to: the operators as they are spelled, and values bare or in either quotes. */
module ParseLaws {
  import opened Text
  import opened Scanner
  import opened Condition
  import opened Printer

  /** The thirteen spellings. */
  predicate Spelled(symbol: string, op: Operator) {
    || (symbol == "!~" && op.NotMatch?) || (symbol == "=~" && op.Match?)
    || (symbol == "!=" && op.Ne?) || (symbol == "==" && op.Eq?) || (symbol == "=" && op.Eq?)
    || (symbol == "<=" && op.Lte?) || (symbol == ">=" && op.Gte?) || (symbol == "<" && op.Lt?)
    || (symbol == ">" && op.Gt?) || (symbol == "contains" && op.ContainsOp?)
    || (symbol == "startswith" && op.StartsWith?) || (symbol == "endswith" && op.EndsWith?)
    || (symbol == "in" && op.In?)
  }

  predicate Plain(s: string) { forall i :: 0 <= i < |s| ==> PlainChar(s[i]) }

  /** Trimmed, and every space in it is quoted. */
  predicate Closed(t: string) {
    && t != "" && Trimmed(t)
    && forall i :: 0 <= i < |t| && t[i] == ' ' ==> ScanAt(t, i).quote.Some?
  }

  /** A field name with spaces after it. */
  predicate Lead(s: string) { forall i :: 0 <= i < |s| ==> s[i] == ' ' || PlainChar(s[i]) }

  predicate Spaces(s: string) { forall i :: 0 <= i < |s| ==> s[i] == ' ' }

  /** The spaced operator between what leads up to it and the value, with `pad` more spaces before the value. */
  function TextOf(lead: string, symbol: string, pad: string, t: string): string {
    lead + " " + symbol + " " + pad + t
  }

  // ----- scanning the text -----

  lemma {:induction false} ScanLead(lead: string, symbol: string, pad: string, t: string, i: nat)
    requires Lead(lead) && Plain(symbol) && Spaces(pad) && i <= |lead| + |symbol| + |pad| + 2
    ensures ScanAt(TextOf(lead, symbol, pad, t), i) == Start
  {
    var text, n := TextOf(lead, symbol, pad, t), |lead| + |symbol| + 2;
    if i > 0 {
      ScanLead(lead, symbol, pad, t, i - 1);
      var k := i - 1;
      assert text[k] == ' ' || PlainChar(text[k]) by {
        if k < |lead| { assert text[k] == lead[k]; }
        if |lead| < k <= |lead| + |symbol| { assert text[k] == symbol[k - |lead| - 1]; }
        if k >= n { assert text[k] == pad[k - n]; }
      }
    }
  }

  lemma {:induction false} ScanTail(lead: string, symbol: string, pad: string, t: string, i: nat)
    requires Lead(lead) && Plain(symbol) && Spaces(pad) && i <= |t|
    ensures ScanAt(TextOf(lead, symbol, pad, t), |lead| + |symbol| + |pad| + 2 + i) == ScanAt(t, i)
  {
    var text, n := TextOf(lead, symbol, pad, t), |lead| + |symbol| + |pad| + 2;
    if i == 0 {
      ScanLead(lead, symbol, pad, t, n);
    } else {
      ScanTail(lead, symbol, pad, t, i - 1);
      assert text[n + i - 1] == t[i - 1];
    }
  }

  lemma {:induction false} ScanPlain(t: string, i: nat)
    requires i <= |t| && Plain(t[..i])
    ensures ScanAt(t, i) == Start
  {
    if i > 0 {
      assert t[..i][..i - 1] == t[..i - 1] && PlainChar(t[..i][i - 1]);
      ScanPlain(t, i - 1);
    }
  }

  /** The field name, and spaces. */
  ghost predicate FieldLead(lead: string, field: string) {
    exists spaces :: LeadIs(lead, field, spaces)
  }

  predicate LeadIs(lead: string, field: string, spaces: string) {
    FieldName(field) && Spaces(spaces) && lead == field + spaces
  }

  lemma LeadEnds(lead: string, field: string)
    requires FieldLead(lead, field)
    ensures Lead(lead) && forall i :: 0 <= i < |lead| - 1 && lead[i] == ' ' ==> lead[i + 1] == ' '
  {
    var spaces :| LeadIs(lead, field, spaces);
    assert forall k :: 0 <= k < |field| ==> lead[k] == field[k] && PlainChar(field[k]);
    assert forall k :: 0 <= k < |spaces| ==> lead[|field| + k] == spaces[k];
  }

  /** Outside quotes the only spaces followed by something else are the last before the operator and before the
      value. */
  lemma OpenSpaces(field: string, lead: string, symbol: string, pad: string, t: string, i: nat)
    requires FieldLead(lead, field) && Plain(symbol) && Spaces(pad) && Closed(t)
    requires var text := TextOf(lead, symbol, pad, t);
             i + 1 < |text| && text[i] == ' ' && text[i + 1] != ' ' && ScanAt(text, i).quote == None
    ensures i == |lead| || i == |lead| + |symbol| + |pad| + 1
  {
    var text, n := TextOf(lead, symbol, pad, t), |lead| + |symbol| + 2;
    LeadEnds(lead, field);
    assert text[..|lead|] == lead && text[|lead|] == ' ';
    assert forall k :: 0 <= k < |symbol| ==> text[|lead| + 1 + k] == symbol[k] && PlainChar(symbol[k]);
    assert forall k :: 0 <= k < |pad| ==> text[n + k] == pad[k];
    assert text[n + |pad|..] == t;
    if i >= n + |pad| { ScanTail(lead, symbol, pad, t, i - n - |pad|); }
    hide ScanAt, FieldLead;
  }

  lemma LeadIsLead(lead: string, field: string)
    requires FieldLead(lead, field)
    ensures Lead(lead) && lead != "" && lead[0] == field[0] && PlainChar(field[0])
    ensures Trim(lead) == field && field != "" && field != "NOT" && SpaceFree(field)
  {
    var spaces :| LeadIs(lead, field, spaces);
    assert forall k :: 0 <= k < |field| ==> lead[k] == field[k] && PlainChar(field[k]);
    assert forall k :: 0 <= k < |spaces| ==> lead[|field| + k] == spaces[k];
    assert "" + field + spaces == lead;
    TrimPadded("", field, spaces);
  }

  /** A spaced word stands outside quotes only right before the value's blanks, and only as the operator. */
  lemma OnlyOperator(field: string, lead: string, symbol: string, pad: string, t: string, word: string, i: nat)
    requires FieldLead(lead, field) && Plain(symbol) && symbol != "" && Spaces(pad) && Closed(t)
    requires word != "" && Plain(word)
    requires var text := TextOf(lead, symbol, pad, t);
             StandsAt(text, " " + word + " ", i) && ScanAt(text, i).quote == None
    ensures i == |lead| && word == symbol
  {
    hide ScanAt, FieldLead;
    var text := TextOf(lead, symbol, pad, t);
    var rest := text[i + 1..];
    StandsParts(text, word, i);
    assert PlainChar(word[0]);
    OpenSpaces(field, lead, symbol, pad, t, i);
    if i == |lead| {
      assert rest == symbol + " " + (pad + t);
      PlainIsSpaceFree(word);
      PlainIsSpaceFree(symbol);
      FirstWord(word, symbol, pad + t);
    } else {
      assert rest == t;
      NotInTail(t, word);
    }
  }

  lemma StandsParts(s: string, word: string, i: nat)
    requires word != "" && StandsAt(s, " " + word + " ", i)
    ensures i + 1 < |s| && s[i] == ' ' && s[i + 1] == word[0] && word + " " <= s[i + 1..]
  {
    var needle := " " + word + " ";
    var part := s[i..i + |needle|];
    assert part[0] == s[i] && part[1] == s[i + 1] && needle[1] == word[0];
    assert part[1..] == s[i + 1..][..|word| + 1] && needle[1..] == word + " ";
  }

  lemma PlainIsSpaceFree(s: string)
    requires Plain(s)
    ensures SpaceFree(s)
  {
    assert forall i :: 0 <= i < |s| ==> PlainChar(s[i]);
  }

  lemma NotInTail(t: string, word: string)
    requires Closed(t) && Plain(word)
    ensures !(word + " " <= t)
  {
    if word + " " <= t {
      assert t[..|word|] == word && t[|word|] == (word + " ")[|word|];
      ScanPlain(t, |word|);
    }
  }

  // ----- no cut, one operator -----

  lemma {:induction false} NoCandidate(expr: string, sep: string, i: nat)
    requires i <= |expr| && sep != "" && forall j :: i <= j <= |expr| ==> !Candidate(expr, sep, j)
    ensures PartsFrom(expr, sep, 0, i) == Emit(expr)
    decreases |expr| - i
  {
    hide Candidate;
    assert expr[0..] == expr;
    if i + |sep| <= |expr| { NoCandidate(expr, sep, i + 1); }
  }

  lemma NeverSplit(field: string, lead: string, symbol: string, pad: string, t: string, word: string)
    requires FieldLead(lead, field) && Plain(symbol) && symbol != "" && Spaces(pad) && Closed(t)
    requires word != "" && Plain(word) && word != symbol
    ensures SplitOutside(TextOf(lead, symbol, pad, t), " " + word + " ") == Emit(TextOf(lead, symbol, pad, t))
  {
    var text, sep := TextOf(lead, symbol, pad, t), " " + word + " ";
    forall j | 0 <= j <= |text| ensures !Candidate(text, sep, j) {
      if Candidate(text, sep, j) { OnlyOperator(field, lead, symbol, pad, t, word, j); }
    }
    NoCandidate(text, sep, 0);
  }

  lemma Found(field: string, lead: string, symbol: string, pad: string, t: string, word: string)
    requires FieldLead(lead, field) && Plain(symbol) && symbol != "" && Spaces(pad) && Closed(t)
    requires word != "" && Plain(word)
    ensures FindOperator(TextOf(lead, symbol, pad, t), word) == if word == symbol then Some(|lead|) else None
  {
    var text, needle := TextOf(lead, symbol, pad, t), " " + word + " ";
    FindFromIsFirst(text, needle, 0);
    forall j | 0 <= j < |text| && ScanAt(text, j + 1).quote == None && StandsAt(text, needle, j)
      ensures j == |lead| && word == symbol
    {
      assert text[j] == text[j..j + |needle|][0] == ' ';
      OnlyOperator(field, lead, symbol, pad, t, word, j);
    }
    LeadIsLead(lead, field);
    ScanLead(lead, symbol, pad, t, |lead| + 1);
    if word == symbol {
      assert text[|lead|..|lead| + |needle|] == needle;
      assert StandsAt(text, needle, |lead|);
    }
    hide ScanAt;
  }

  lemma SpelledAt(symbol: string, op: Operator) returns (n: nat)
    requires Spelled(symbol, op)
    ensures n < OperatorCount && OperatorAt(n) == (symbol, op) && Plain(symbol) && symbol != ""
    ensures forall m :: 0 <= m < n ==> OperatorAt(m).0 != symbol
    ensures symbol != "OR" && symbol != "AND"
  {
    n := match op
         case NotMatch => 0 case Match => 1 case Ne => 2 case Lte => 3 case Gte => 4 case Lt => 5 case Gt => 6
         case Eq => if symbol == "==" then 7 else 8
         case ContainsOp => 9 case StartsWith => 10 case EndsWith => 11 case In => 12;
  }

  lemma TableIsPlain(n: nat)
    requires n < OperatorCount
    ensures OperatorAt(n).0 != "" && Plain(OperatorAt(n).0)
  {
  }

  lemma {:induction false} TriesUpTo(lib: Library, field: string, lead: string, symbol: string, op: Operator,
                                     pad: string, t: string, m: nat, n: nat)
    requires FieldLead(lead, field) && Plain(symbol) && symbol != "" && Spaces(pad) && Closed(t)
    requires m <= n < OperatorCount && OperatorAt(n) == (symbol, op)
    requires forall k :: m <= k < n ==> OperatorAt(k).0 != symbol
    ensures var text := TextOf(lead, symbol, pad, t);
            TryOperators(lib, text, m) == Comparing(lib, text, symbol, op, |lead|)
    decreases n - m
  {
    TableIsPlain(m);
    Found(field, lead, symbol, pad, t, OperatorAt(m).0);
    hide OperatorAt, FindOperator, Comparing, TryOperators;
    TryStep(lib, TextOf(lead, symbol, pad, t), m);
    if m < n { TriesUpTo(lib, field, lead, symbol, op, pad, t, m + 1, n); }
  }

  /** What a comparison comes to: refused only if its pattern does not compile. */
  function Made(lib: Library, field: string, op: Operator, value: string): Result<Condition> {
    if !op.Match? && !op.NotMatch? then Ok(Comparison(field, op, value, None))
    else if lib.compiles(value) then Ok(Comparison(field, op, value, Some(value)))
    else Err(InvalidRegex(value))
  }

  lemma ComparingIs(lib: Library, text: string, symbol: string, op: Operator, idx: nat, field: string, t: string)
    requires idx + |symbol| + 2 <= |text| && Trim(text[..idx]) == field != ""
    requires Trim(text[idx + |symbol| + 2..]) == t != ""
    ensures Comparing(lib, text, symbol, op, idx) == Made(lib, field, op, Unquote(t))
  {
    hide Trim, Unquote;
  }

  lemma ComparingParts(lib: Library, field: string, lead: string, symbol: string, op: Operator, pad: string, t: string)
    requires FieldLead(lead, field) && Spaces(pad) && Closed(t)
    ensures Comparing(lib, TextOf(lead, symbol, pad, t), symbol, op, |lead|) == Made(lib, field, op, Unquote(t))
  {
    hide Trim, Unquote, FieldLead, ScanAt, Comparing, Made;
    var text := TextOf(lead, symbol, pad, t);
    assert text[..|lead|] == lead && text[|lead| + |symbol| + 2..] == pad + t == pad + t + "";
    LeadIsLead(lead, field);
    TrimPadded(pad, t, "");
    ComparingIs(lib, text, symbol, op, |lead|, field, t);
  }

  lemma ParsesTo(lib: Library, field: string, lead: string, symbol: string, op: Operator, pad: string, t: string)
    requires FieldLead(lead, field) && Spelled(symbol, op) && Spaces(pad) && Closed(t)
    ensures var text := TextOf(lead, symbol, pad, t);
            Parse(lib, text) == ParseUnary(lib, text) == Made(lib, field, op, Unquote(t))
  {
    hide *;
    var text := TextOf(lead, symbol, pad, t);
    TextIsTrimmed(field, lead, symbol, pad, t);
    var n := SpelledAt(symbol, op);
    WordsArePlain();
    NeverSplit(field, lead, symbol, pad, t, "OR");
    NeverSplit(field, lead, symbol, pad, t, "AND");
    NotSplit(lib, text);
    TriesUpTo(lib, field, lead, symbol, op, pad, t, 0, n);
    ComparingParts(lib, field, lead, symbol, op, pad, t);
    TextIsUnary(field, lead, symbol, pad, t);
    UnaryIsComparison(lib, text);
  }

  lemma WordsArePlain()
    ensures Plain("OR") && Plain("AND") && " " + "OR" + " " == OrSep && " " + "AND" + " " == AndSep
  {
  }

  lemma TextIsTrimmed(field: string, lead: string, symbol: string, pad: string, t: string)
    requires FieldLead(lead, field) && Closed(t)
    ensures var text := TextOf(lead, symbol, pad, t); text != "" && Trimmed(text) && text[0] == field[0]
  {
    var text := TextOf(lead, symbol, pad, t);
    LeadIsLead(lead, field);
    assert text[0] == lead[0] && text[|text| - 1] == t[|t| - 1];
    hide ScanAt, FieldLead;
  }

  lemma NotSplit(lib: Library, text: string)
    requires text != "" && Trimmed(text)
    requires SplitOutside(text, OrSep) == Emit(text) && SplitOutside(text, AndSep) == Emit(text)
    ensures Parse(lib, text) == ParseUnary(lib, text)
  {
    TrimOfTrimmed(text);
    hide SplitOutside, Trim, ParseUnary;
  }

  lemma UnaryIsComparison(lib: Library, text: string)
    requires text != "" && Trimmed(text) && text[0] != '(' && !("NOT " <= text)
    ensures ParseUnary(lib, text) == TryOperators(lib, text, 0)
  {
    TrimOfTrimmed(text);
    assert Strip(text) == text;
    hide Trim, TryOperators, Strip;
  }

  lemma TextIsUnary(field: string, lead: string, symbol: string, pad: string, t: string)
    requires FieldLead(lead, field)
    ensures var text := TextOf(lead, symbol, pad, t); text[0] != '(' && !("NOT " <= text)
  {
    LeadIsLead(lead, field);
    var spaces :| LeadIs(lead, field, spaces);
    var text, rest := TextOf(lead, symbol, pad, t), (spaces + " " + symbol + " " + pad + t)[1..];
    assert (spaces + " ")[0] == ' ';
    assert text == field + " " + rest && "NOT" + " " == "NOT ";
    NotFirstWord("NOT", field, rest);
    assert text[0] == field[0];
  }

  // ----- values -----

  /** A bare value, such as a number or a name, is taken as it stands, however many spaces are around the operator. */
  lemma BareValue(lib: Library, field: string, before: string, symbol: string, op: Operator, after: string,
                  word: string)
    requires FieldName(field) && Spelled(symbol, op) && word != "" && Plain(word) && Spaces(before) && Spaces(after)
    ensures var r := Parse(lib, field + before + " " + symbol + " " + after + word);
            if (symbol == "=~" || symbol == "!~") && !lib.compiles(word) then r == Err(InvalidRegex(word))
            else r == Ok(Comparison(field, op, word, if op.Match? || op.NotMatch? then Some(word) else None))
  {
    assert PlainChar(word[0]) && PlainChar(word[|word| - 1]);
    forall i | 0 <= i < |word| ensures word[i] != ' ' { assert PlainChar(word[i]); }
    assert LeadIs(field + before, field, before);
    ParsesTo(lib, field, field + before, symbol, op, after, word);
  }

  lemma {:induction false} QuotedScan(q: char, v: string, i: nat)
    requires IsQuote(q) && QuotableBy(q, v) && i <= |v|
    ensures ScanAt([q] + v + [q], i + 1) == Scan(Some(q), 0, Escaped(v, i))
  {
    var t := [q] + v + [q];
    if i > 0 {
      QuotedScan(q, v, i - 1);
      assert t[i] == v[i - 1];
    } else {
      assert ScanAt(t, 1) == Step(ScanAt(t, 0), t[0]);
    }
  }

  lemma QuotedIsClosed(q: char, v: string)
    requires IsQuote(q) && QuotableBy(q, v)
    ensures Closed([q] + v + [q]) && Unquote([q] + v + [q]) == v
  {
    var t := [q] + v + [q];
    assert t[1..|t| - 1] == v;
    forall i | 0 <= i < |t| && t[i] == ' ' ensures ScanAt(t, i).quote.Some? {
      QuotedScan(q, v, i - 1);
    }
  }

  /** A value in double or single quotes is what stands between them, spaces, separators and escapes included. */
  lemma QuotedValue(lib: Library, field: string, before: string, symbol: string, op: Operator, after: string, q: char,
                    value: string)
    requires FieldName(field) && Spelled(symbol, op) && (q == '"' || q == '\'') && QuotableBy(q, value)
    requires Spaces(before) && Spaces(after)
    ensures var r := Parse(lib, field + before + " " + symbol + " " + after + ([q] + value + [q]));
            if (symbol == "=~" || symbol == "!~") && !lib.compiles(value) then r == Err(InvalidRegex(value))
            else r == Ok(Comparison(field, op, value, if op.Match? || op.NotMatch? then Some(value) else None))
  {
    QuotedIsClosed(q, value);
    assert LeadIs(field + before, field, before);
    ParsesTo(lib, field, field + before, symbol, op, after, [q] + value + [q]);
  }

  // ----- errors -----

  lemma StandsHead(s: string, needle: string, i: nat)
    ensures StandsAt(s, needle, i) && needle != "" ==> i < |s| && s[i] == needle[0]
  {
    if StandsAt(s, needle, i) && needle != "" { assert s[i] == s[i..i + |needle|][0]; }
  }

  lemma PrefixChars(p: string, s: string)
    ensures p <= s ==> forall i :: 0 <= i < |p| ==> s[i] == p[i]
  {
  }

  lemma WordIsBare(word: string)
    requires word != "" && Plain(word)
    ensures Trimmed(word) && word[0] != '(' && !("NOT " <= word)
    ensures forall needle: string, i: nat :: needle != "" && needle[0] == ' ' ==> !StandsAt(word, needle, i)
  {
    assert PlainChar(word[0]) && PlainChar(word[|word| - 1]);
    PlainIsSpaceFree(word);
    PrefixChars("NOT ", word);
    assert "NOT "[3] == ' ';
    hide StandsAt, Plain;
    forall needle: string, i: nat | needle != "" && needle[0] == ' ' ensures !StandsAt(word, needle, i) {
      StandsHead(word, needle, i);
    }
  }

  /** A blank text is refused as empty, and a single word, `NOT` included, as no condition. */
  lemma NoCondition(lib: Library, blank: string, word: string)
    requires Blank(blank) && word != "" && Plain(word)
    ensures Parse(lib, blank) == Err(EmptyExpression) && Parse(lib, word) == Err(InvalidExpression(word))
  {
    BlankTrims(blank);
    WordIsBare(word);
    hide Parse, ParseUnary, StandsAt, TryOperators, Plain;
    NeedleFree(word);
    NotSplit(lib, word);
    UnaryIsComparison(lib, word);
    NoOperator(lib, word, 0);
    EmptyIsRefused(lib, blank);
  }

  lemma EmptyIsRefused(lib: Library, blank: string)
    requires TrimLeft(blank) == ""
    ensures Parse(lib, blank) == Err(EmptyExpression)
  {
  }

  lemma NeedleFree(word: string)
    requires forall needle: string, i: nat :: needle != "" && needle[0] == ' ' ==> !StandsAt(word, needle, i)
    ensures SplitOutside(word, OrSep) == Emit(word) && SplitOutside(word, AndSep) == Emit(word)
  {
    NoCandidate(word, OrSep, 0);
    NoCandidate(word, AndSep, 0);
  }

  lemma {:induction false} NoOperator(lib: Library, text: string, n: nat)
    requires n <= OperatorCount
    requires forall needle: string, i: nat :: needle != "" && needle[0] == ' ' ==> !StandsAt(text, needle, i)
    ensures TryOperators(lib, text, n) == Err(InvalidExpression(text))
    decreases OperatorCount - n
  {
    if n < OperatorCount {
      var needle := " " + OperatorAt(n).0 + " ";
      FindFromIsFirst(text, needle, 0);
      hide OperatorAt, StandsAt, ScanAt;
      TryStep(lib, text, n);
      NoOperator(lib, text, n + 1);
    } else {
      TryNone(lib, text);
    }
  }
}
