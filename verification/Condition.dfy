/** The condition language: syntax trees, parser, evaluator. */
module Condition {
  import opened Text
  import opened Scanner
  import Event

  datatype Operator =
    | NotMatch | Match | Ne | Lte | Gte | Lt | Gt | Eq
    | ContainsOp | StartsWith | EndsWith | In
    | Other(name: string)

  /** `regex` is the compiled pattern of a comparison, if it has one. */
  datatype Condition =
    | And(all: seq<Condition>)
    | Or(any: seq<Condition>)
    | Not(operand: Condition)
    | Comparison(field: string, op: Operator, value: string, regex: Option<string>)

  datatype Error =
    | EmptyExpression
    | MissingOperand
    | InvalidExpression(expr: string)
    | InvalidRegex(pattern: string)
    | MissingField
    | RegexNotCompiled
    | NonNumeric(a: string, b: string)
    | UnknownOperator(name: string)

  datatype Result<+T> = Ok(value: T) | Err(error: Error)

  /** A parsed float64: a number, an infinity, or not a number. */
  datatype Float = NaN | NegInf | Finite(r: real) | PosInf

  /** The library calls that are not modelled: `%v`, `strconv.ParseFloat`, `regexp`. */
  datatype Library = Library(
    format: Event.Value -> string,
    parseFloat: string -> Option<Float>,
    compiles: string -> bool,
    matches: (string, string) -> bool)

  // ----- parsing -----

  function Combine(head: Result<Condition>, tail: Result<seq<Condition>>): Result<seq<Condition>> {
    if head.Err? then Err(head.error)
    else if tail.Err? then tail
    else Ok([head.value] + tail.value)
  }

  function Parse(lib: Library, input: string): Result<Condition>
    decreases |input|, 2, 0
  {
    var expr := Trim(input);
    if expr == "" then Err(EmptyExpression)
    else
      var ors := SplitOutside(expr, OrSep);
      PartsAreShorter(expr, OrSep);
      if |ors| > 1 then
        var conditions := ParseAll(lib, ors, |input|);
        if conditions.Err? then Err(conditions.error) else Ok(Or(conditions.value))
      else
        var ands := SplitOutside(expr, AndSep);
        PartsAreShorter(expr, AndSep);
        if |ands| > 1 then
          var conditions := ParseAll(lib, ands, |input|);
          if conditions.Err? then Err(conditions.error) else Ok(And(conditions.value))
        else ParseUnary(lib, expr)
  }

  /** Parses the parts in order; the first error wins. */
  function ParseAll(lib: Library, parts: seq<string>, bound: nat): Result<seq<Condition>>
    requires forall p :: p in parts ==> |p| < bound
    decreases bound, 0, |parts|
  {
    if parts == [] then Ok([])
    else Combine(Parse(lib, parts[0]), ParseAll(lib, parts[1..], bound))
  }

  lemma StrippedIsShorter(expr: string)
    requires Trimmed(expr)
    ensures Strip(expr) == expr || |Strip(expr)| < |expr|
  {
    TrimOfTrimmed(expr);
  }

  function ParseUnary(lib: Library, input: string): Result<Condition>
    decreases |input|, 1, 0
  {
    var expr := Trim(input);
    if expr == "" then Err(EmptyExpression)
    else if "NOT " <= expr then
      var operand := Trim(expr[4..]);
      if operand == "" then Err(MissingOperand)
      else
        var inner := ParseUnary(lib, operand);
        if inner.Err? then inner else Ok(Not(inner.value))
    else
      var stripped := Strip(expr);
      TrimIsTrimmed(input);
      StrippedIsShorter(expr);
      if stripped != expr then Parse(lib, stripped)
      else ParseComparison(lib, expr)
  }

  /** The operators in the order they are tried. */
  const OperatorCount := 13

  function OperatorAt(n: nat): (string, Operator)
    requires n < OperatorCount
  {
    if n == 0 then ("!~", NotMatch)
    else if n == 1 then ("=~", Match)
    else if n == 2 then ("!=", Ne)
    else if n == 3 then ("<=", Lte)
    else if n == 4 then (">=", Gte)
    else if n == 5 then ("<", Lt)
    else if n == 6 then (">", Gt)
    else if n == 7 then ("==", Eq)
    else if n == 8 then ("=", Eq)
    else if n == 9 then ("contains", ContainsOp)
    else if n == 10 then ("startswith", StartsWith)
    else if n == 11 then ("endswith", EndsWith)
    else ("in", In)
  }

  function Unquote(s: string): string {
    if |s| >= 2 && s[0] == s[|s| - 1] && (s[0] == '"' || s[0] == '\'') then s[1..|s| - 1] else s
  }

  predicate NeedsRegex(op: Operator) { op == Match || op == NotMatch }

  /** The comparison whose operator `symbol` stands at `idx`. */
  function Comparing(lib: Library, expr: string, symbol: string, op: Operator, idx: nat): Result<Condition>
    requires idx + |symbol| + 2 <= |expr|
  {
    var field := Trim(expr[..idx]);
    var valueText := Trim(expr[idx + |symbol| + 2..]);
    if field == "" || valueText == "" then Err(InvalidExpression(expr))
    else
      var value := Unquote(valueText);
      if NeedsRegex(op) then
        if lib.compiles(value) then Ok(Comparison(field, op, value, Some(value))) else Err(InvalidRegex(value))
      else Ok(Comparison(field, op, value, None))
  }

  lemma FindOperatorFits(expr: string, op: string)
    ensures var i := FindOperator(expr, op);
            i.Some? ==> i.value + |op| + 2 <= |expr| && StandsAt(expr, " " + op + " ", i.value)
  {
    if op != "" { FindFromIsFirst(expr, " " + op + " ", 0); }
  }

  /** Tries the operators from the `n`-th on. */
  function TryOperators(lib: Library, expr: string, n: nat): Result<Condition>
    requires n <= OperatorCount
    decreases OperatorCount - n
  {
    if n == OperatorCount then Err(InvalidExpression(expr))
    else
      FindOperatorFits(expr, OperatorAt(n).0);
      match FindOperator(expr, OperatorAt(n).0)
      case Some(idx) => Comparing(lib, expr, OperatorAt(n).0, OperatorAt(n).1, idx)
      case None => TryOperators(lib, expr, n + 1)
  }

  function ParseComparison(lib: Library, input: string): Result<Condition> {
    var expr := Trim(input);
    if expr == "" then Err(EmptyExpression) else TryOperators(lib, expr, 0)
  }

  // ----- the parser as the source runs it -----

  method ParseExpression(lib: Library, input: string) returns (r: Result<Condition>)
    ensures r == Parse(lib, input)
    decreases |input|, 2
  {
    var expr := Trim(input);
    if expr == "" {
      return Err(EmptyExpression);
    }
    assert PlainSeparator(OrSep) && PlainSeparator(AndSep);
    hide SplitOutside, Trim;
    var parts := SplitOutsideParens(expr, OrSep);
    PartsAreShorter(expr, OrSep);
    if |parts| > 1 {
      var conditions := ParseParts(lib, parts, |input|);
      return if conditions.Err? then Err(conditions.error) else Ok(Or(conditions.value));
    }
    parts := SplitOutsideParens(expr, AndSep);
    PartsAreShorter(expr, AndSep);
    if |parts| > 1 {
      var conditions := ParseParts(lib, parts, |input|);
      return if conditions.Err? then Err(conditions.error) else Ok(And(conditions.value));
    }
    r := ParseUnaryExpression(lib, expr);
  }

  /** The loop over the parts of an AND or OR. */
  method ParseParts(lib: Library, parts: seq<string>, ghost bound: nat) returns (r: Result<seq<Condition>>)
    requires forall p :: p in parts ==> |p| < bound
    ensures r == ParseAll(lib, parts, bound)
    decreases bound, 0
  {
    var conditions := [];
    assert parts[0..] == parts;
    PrependNone(ParseAll(lib, parts, bound));
    hide Parse, Prepend;
    for i := 0 to |parts|
      invariant ParseAll(lib, parts, bound) == Prepend(conditions, ParseAll(lib, parts[i..], bound))
    {
      var cond := ParseExpression(lib, parts[i]);
      assert parts[i..][1..] == parts[i + 1..];
      if cond.Err? {
        PrependErr(conditions, cond.error);
        return Err(cond.error);
      }
      PrependOne(conditions, cond.value, ParseAll(lib, parts[i + 1..], bound));
      conditions := conditions + [cond.value];
    }
    PrependToNone(conditions);
    r := Ok(conditions);
  }

  function Prepend(done: seq<Condition>, rest: Result<seq<Condition>>): Result<seq<Condition>> {
    if rest.Err? then rest else Ok(done + rest.value)
  }

  lemma PrependNone(rest: Result<seq<Condition>>)
    ensures Prepend([], rest) == rest
  {
    if rest.Ok? { assert [] + rest.value == rest.value; }
  }

  lemma PrependToNone(done: seq<Condition>)
    ensures Prepend(done, Ok([])) == Ok(done)
  {
    assert done + [] == done;
  }

  lemma PrependErr(done: seq<Condition>, e: Error)
    ensures Prepend(done, Err(e)) == Err(e)
  {
  }

  lemma PrependOne(done: seq<Condition>, c: Condition, rest: Result<seq<Condition>>)
    ensures Prepend(done, Combine(Ok(c), rest)) == Prepend(done + [c], rest)
  {
    if rest.Ok? { assert done + ([c] + rest.value) == done + [c] + rest.value; }
  }

  method ParseUnaryExpression(lib: Library, input: string) returns (r: Result<Condition>)
    ensures r == ParseUnary(lib, input)
    decreases |input|, 1
  {
    var expr := Trim(input);
    if expr == "" {
      return Err(EmptyExpression);
    }
    if "NOT " <= expr {
      var operand := Trim(expr[4..]);
      if operand == "" {
        return Err(MissingOperand);
      }
      var cond := ParseUnaryExpression(lib, operand);
      return if cond.Err? then cond else Ok(Not(cond.value));
    }
    var stripped := StripOuterParens(expr);
    if stripped != expr {
      TrimIsTrimmed(input);
      StrippedIsShorter(expr);
      r := ParseExpression(lib, stripped);
      return;
    }
    r := ParseComparisonCondition(lib, expr);
  }

  lemma TryStep(lib: Library, expr: string, n: nat)
    requires n < OperatorCount
    ensures match FindOperator(expr, OperatorAt(n).0)
            case Some(idx) => idx + |OperatorAt(n).0| + 2 <= |expr|
                              && TryOperators(lib, expr, n)
                                  == Comparing(lib, expr, OperatorAt(n).0, OperatorAt(n).1, idx)
            case None => TryOperators(lib, expr, n) == TryOperators(lib, expr, n + 1)
  {
    hide OperatorAt;
    FindOperatorFits(expr, OperatorAt(n).0);
  }

  lemma TryNone(lib: Library, expr: string)
    ensures TryOperators(lib, expr, OperatorCount) == Err(InvalidExpression(expr))
  {
  }

  /** The body of the operator loops: the comparison whose operator was found at `idx`. */
  method BuildComparison(lib: Library, expr: string, symbol: string, op: Operator, idx: nat)
      returns (r: Result<Condition>)
    requires idx + |symbol| + 2 <= |expr|
    ensures r == Comparing(lib, expr, symbol, op, idx)
  {
    hide Trim, Unquote;
    var needleLen := |symbol| + 2;
    var field := Trim(expr[..idx]);
    var valueText := Trim(expr[idx + needleLen..]);
    if field == "" || valueText == "" {
      return Err(InvalidExpression(expr));
    }
    var unquoted := Unquote(valueText);
    if op == Match || op == NotMatch {
      if !lib.compiles(unquoted) {
        return Err(InvalidRegex(unquoted));
      }
      return Ok(Comparison(field, op, unquoted, Some(unquoted)));
    }
    return Ok(Comparison(field, op, unquoted, None));
  }

  method ParseComparisonCondition(lib: Library, input: string) returns (r: Result<Condition>)
    ensures r == ParseComparison(lib, input)
  {
    var expr := Trim(input);
    if expr == "" {
      return Err(EmptyExpression);
    }
    r := MatchOperators(lib, expr);
  }

  /** The loops over the operator tables. */
  method MatchOperators(lib: Library, expr: string) returns (r: Result<Condition>)
    ensures r == TryOperators(lib, expr, 0)
  {
    hide TryOperators, OperatorAt, FindOperator, StandsAt, Comparing;
    for n := 0 to OperatorCount
      invariant TryOperators(lib, expr, n) == TryOperators(lib, expr, 0)
    {
      var (symbol, op) := OperatorAt(n);
      TryStep(lib, expr, n);
      var idx := FindOperatorOutsideQuotes(expr, symbol);
      if idx != -1 {
        r := BuildComparison(lib, expr, symbol, op, idx);
        return;
      }
    }
    TryNone(lib, expr);
    r := Err(InvalidExpression(expr));
  }
}
