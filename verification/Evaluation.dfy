/** Evaluating conditions against events: the short-circuit evaluator and its algebra. */
module Evaluation {
  import opened Text
  import opened Scanner
  import opened Condition
  import Event

  // ----- comparisons -----

  predicate Less(a: Float, b: Float) {
    match (a, b)
    case (NaN, _) => false
    case (_, NaN) => false
    case (Finite(x), Finite(y)) => x < y
    case (NegInf, _) => b != NegInf
    case (_, PosInf) => a != PosInf
    case _ => false
  }

  predicate AtMost(a: Float, b: Float) {
    Less(a, b) || (a == b && a != NaN)
  }

  function CompareNumbers(lib: Library, a: string, b: string, compare: (Float, Float) -> bool): Result<bool> {
    match (lib.parseFloat(a), lib.parseFloat(b))
    case (Some(x), Some(y)) => Ok(compare(x, y))
    case _ => Err(NonNumeric(a, b))
  }

  function EndsIn(s: string, suffix: string): bool { |suffix| <= |s| && s[|s| - |suffix|..] == suffix }

  /** An entry of the comma-separated list of an `in` comparison, as it is compared. */
  function ListEntry(part: string): string {
    Unquote(ReplaceAll(ReplaceAll(Trim(part), "\\\"", "\""), "\\'", "'"))
  }

  predicate Listed(parts: seq<string>, text: string) {
    exists i :: 0 <= i < |parts| && Trim(parts[i]) != "" && ListEntry(parts[i]) == text
  }

  function EvalComparison(lib: Library, c: Condition, e: Event.Event): Result<bool>
    requires c.Comparison?
  {
    if c.field == "" then Err(MissingField)
    else
      match Event.GetField(e, c.field)
      case None => Ok(c.op == Ne || c.op == NotMatch)
      case Some(v) =>
        var text := lib.format(v);
        match c.op
        case Eq => Ok(text == c.value)
        case Ne => Ok(text != c.value)
        case Lt => CompareNumbers(lib, text, c.value, Less)
        case Lte => CompareNumbers(lib, text, c.value, AtMost)
        case Gt => CompareNumbers(lib, text, c.value, (a, b) => Less(b, a))
        case Gte => CompareNumbers(lib, text, c.value, (a, b) => AtMost(b, a))
        case Match => if c.regex.None? then Err(RegexNotCompiled) else Ok(lib.matches(c.regex.value, text))
        case NotMatch => if c.regex.None? then Err(RegexNotCompiled) else Ok(!lib.matches(c.regex.value, text))
        case ContainsOp => Ok(Contains(text, c.value))
        case StartsWith => Ok(c.value <= text)
        case EndsWith => Ok(EndsIn(text, c.value))
        case In => Ok(Listed(Split(c.value, ','), text))
        case Other(name) => Err(UnknownOperator(name))
  }

  // ----- AND, OR, NOT -----

  function Negated(r: Result<bool>): Result<bool> {
    if r.Err? then r else Ok(!r.value)
  }

  function Eval(lib: Library, c: Condition, e: Event.Event): Result<bool>
    decreases c
  {
    match c
    case Comparison(_, _, _, _) => EvalComparison(lib, c, e)
    case Not(operand) => Negated(Eval(lib, operand, e))
    case And(all) => EvalUntil(lib, all, e, false)
    case Or(any) => EvalUntil(lib, any, e, true)
  }

  /** Evaluates in order until one condition errs or equals `stop`. */
  function EvalUntil(lib: Library, cs: seq<Condition>, e: Event.Event, stop: bool): Result<bool>
    decreases cs
  {
    if cs == [] then Ok(!stop)
    else
      var first := Eval(lib, cs[0], e);
      if first.Err? || first.value == stop then first else EvalUntil(lib, cs[1..], e, stop)
  }

  /** The comparisons evaluated, in order: what short-circuiting leaves of the tree. */
  function Visited(lib: Library, c: Condition, e: Event.Event): seq<Condition>
    decreases c
  {
    match c
    case Comparison(_, _, _, _) => [c]
    case Not(operand) => Visited(lib, operand, e)
    case And(all) => VisitedUntil(lib, all, e, false)
    case Or(any) => VisitedUntil(lib, any, e, true)
  }

  function VisitedUntil(lib: Library, cs: seq<Condition>, e: Event.Event, stop: bool): seq<Condition>
    decreases cs
  {
    if cs == [] then []
    else
      var first := Eval(lib, cs[0], e);
      Visited(lib, cs[0], e) + if first.Err? || first.value == stop then [] else VisitedUntil(lib, cs[1..], e, stop)
  }

  // ----- the evaluator as the source runs it -----

  method Evaluate(lib: Library, c: Condition, e: Event.Event) returns (r: Result<bool>)
    ensures r == Eval(lib, c, e)
    decreases c
  {
    match c {
      case Comparison(_, _, _, _) => r := EvaluateComparison(lib, c, e);
      case Not(operand) =>
        var inner := Evaluate(lib, operand, e);
        r := if inner.Err? then inner else Ok(!inner.value);
      case And(all) => r := EvaluateUntil(lib, all, e, false);
      case Or(any) => r := EvaluateUntil(lib, any, e, true);
    }
  }

  method EvaluateUntil(lib: Library, cs: seq<Condition>, e: Event.Event, stop: bool) returns (r: Result<bool>)
    ensures r == EvalUntil(lib, cs, e, stop)
    decreases cs
  {
    assert cs[0..] == cs;
    for i := 0 to |cs|
      invariant EvalUntil(lib, cs[i..], e, stop) == EvalUntil(lib, cs, e, stop)
    {
      assert cs[i..][1..] == cs[i + 1..];
      var one := Evaluate(lib, cs[i], e);
      if one.Err? || one.value == stop {
        return one;
      }
    }
    r := Ok(!stop);
  }

  method EvaluateComparison(lib: Library, c: Condition, e: Event.Event) returns (r: Result<bool>)
    requires c.Comparison?
    ensures r == EvalComparison(lib, c, e)
  {
    if c.field == "" {
      return Err(MissingField);
    }
    var fieldValue := Event.GetField(e, c.field);
    if fieldValue.None? {
      match c.op
      case Ne => return Ok(true);
      case NotMatch => return Ok(true);
      case _ => return Ok(false);
    }
    var fieldStr := lib.format(fieldValue.value);
    match c.op
    case Eq => r := Ok(fieldStr == c.value);
    case Ne => r := Ok(fieldStr != c.value);
    case Lt => r := CompareNumbers(lib, fieldStr, c.value, Less);
    case Lte => r := CompareNumbers(lib, fieldStr, c.value, AtMost);
    case Gt => r := CompareNumbers(lib, fieldStr, c.value, (a, b) => Less(b, a));
    case Gte => r := CompareNumbers(lib, fieldStr, c.value, (a, b) => AtMost(b, a));
    case Match =>
      if c.regex.None? {
        return Err(RegexNotCompiled);
      }
      r := Ok(lib.matches(c.regex.value, fieldStr));
    case NotMatch =>
      if c.regex.None? {
        return Err(RegexNotCompiled);
      }
      r := Ok(!lib.matches(c.regex.value, fieldStr));
    case ContainsOp =>
      var found := Search(fieldStr, c.value);
      r := Ok(found);
    case StartsWith => r := Ok(|c.value| <= |fieldStr| && fieldStr[..|c.value|] == c.value);
    case EndsWith => r := Ok(|c.value| <= |fieldStr| && fieldStr[|fieldStr| - |c.value|..] == c.value);
    case In =>
      var found := InList(c.value, fieldStr);
      r := Ok(found);
    case Other(name) => r := Err(UnknownOperator(name));
  }

  /** `strings.Contains`: the positions are tried from the left. */
  method Search(s: string, part: string) returns (found: bool)
    ensures found == Contains(s, part)
  {
    for i := 0 to |s| + 1
      invariant forall k :: 0 <= k < i ==> !(part <= s[k..])
    {
      if part <= s[i..] {
        return true;
      }
    }
    return false;
  }

  method InList(list: string, text: string) returns (found: bool)
    ensures found == Listed(Split(list, ','), text)
  {
    var values := Split(list, ',');
    hide Trim, ListEntry, Split;
    for i := 0 to |values|
      invariant forall k :: 0 <= k < i ==> Trim(values[k]) == "" || ListEntry(values[k]) != text
    {
      var candidate := Trim(values[i]);
      if candidate == "" {
        continue;
      }
      candidate := ListEntry(values[i]);
      if candidate == text {
        return true;
      }
    }
    found := false;
  }

  // ----- laws -----

  function NegateAll(cs: seq<Condition>): (r: seq<Condition>)
    ensures |r| == |cs| && forall i :: 0 <= i < |cs| ==> r[i] == Not(cs[i])
  {
    seq(|cs|, i requires 0 <= i < |cs| => Not(cs[i]))
  }

  lemma {:induction false} NegateUntil(lib: Library, cs: seq<Condition>, e: Event.Event, stop: bool)
    ensures EvalUntil(lib, NegateAll(cs), e, !stop) == Negated(EvalUntil(lib, cs, e, stop))
    ensures VisitedUntil(lib, NegateAll(cs), e, !stop) == VisitedUntil(lib, cs, e, stop)
    decreases |cs|
  {
    if cs != [] {
      assert NegateAll(cs)[1..] == NegateAll(cs[1..]);
      NegateUntil(lib, cs[1..], e, stop);
    }
  }

  /** De Morgan: same result, same error, same comparisons evaluated in the same order. */
  lemma DeMorgan(lib: Library, cs: seq<Condition>, e: Event.Event)
    ensures Eval(lib, Not(And(cs)), e) == Eval(lib, Or(NegateAll(cs)), e)
    ensures Eval(lib, Not(Or(cs)), e) == Eval(lib, And(NegateAll(cs)), e)
    ensures Visited(lib, Not(And(cs)), e) == Visited(lib, Or(NegateAll(cs)), e)
    ensures Visited(lib, Not(Or(cs)), e) == Visited(lib, And(NegateAll(cs)), e)
  {
    NegateUntil(lib, cs, e, false);
    NegateUntil(lib, cs, e, true);
  }

  /** Running `a`, then `b` only if `a` neither errs nor stops. */
  lemma {:induction false} UntilConcat(lib: Library, a: seq<Condition>, b: seq<Condition>, e: Event.Event, stop: bool)
    ensures EvalUntil(lib, a + b, e, stop) ==
            if EvalUntil(lib, a, e, stop) == Ok(!stop) then EvalUntil(lib, b, e, stop) else EvalUntil(lib, a, e, stop)
    ensures VisitedUntil(lib, a + b, e, stop) == VisitedUntil(lib, a, e, stop)
            + if EvalUntil(lib, a, e, stop) == Ok(!stop) then VisitedUntil(lib, b, e, stop) else []
    decreases |a|
  {
    hide Eval, Visited;
    if a == [] {
      assert a + b == b;
    } else {
      assert (a + b)[1..] == a[1..] + b;
      UntilConcat(lib, a[1..], b, e, stop);
    }
  }

  /** A nested AND inside an AND (OR inside an OR) can be spliced in. */
  lemma Flattening(lib: Library, a: seq<Condition>, b: seq<Condition>, c: seq<Condition>, e: Event.Event, stop: bool)
    ensures var nested := a + [if stop then Or(b) else And(b)] + c;
            && EvalUntil(lib, nested, e, stop) == EvalUntil(lib, a + b + c, e, stop)
            && VisitedUntil(lib, nested, e, stop) == VisitedUntil(lib, a + b + c, e, stop)
  {
    var node := if stop then Or(b) else And(b);
    UntilConcat(lib, a + [node], c, e, stop);
    UntilConcat(lib, a, [node], e, stop);
    UntilConcat(lib, a + b, c, e, stop);
    UntilConcat(lib, a, b, e, stop);
    NodeAsList(lib, b, e, stop);
    assert VisitedUntil(lib, a, e, stop) + [] == VisitedUntil(lib, a, e, stop);
  }

  lemma NodeAsList(lib: Library, b: seq<Condition>, e: Event.Event, stop: bool)
    ensures var node := if stop then Or(b) else And(b);
            && EvalUntil(lib, [node], e, stop) == EvalUntil(lib, b, e, stop)
            && VisitedUntil(lib, [node], e, stop) == VisitedUntil(lib, b, e, stop)
  {
    var node := if stop then Or(b) else And(b);
    assert [node][1..] == [];
    assert VisitedUntil(lib, b, e, stop) + [] == VisitedUntil(lib, b, e, stop);
  }

  /** `!=` is the complement of `==`, and `!~` of `=~`, on every event, absent fields included. */
  lemma ComplementaryOperators(lib: Library, field: string, value: string, regex: Option<string>, e: Event.Event)
    ensures Eval(lib, Comparison(field, Ne, value, regex), e)
        == Negated(Eval(lib, Comparison(field, Eq, value, regex), e))
    ensures Eval(lib, Comparison(field, NotMatch, value, regex), e)
        == Negated(Eval(lib, Comparison(field, Match, value, regex), e))
  {
  }

  /** `>=` is the complement of `<` exactly when the field is there and no operand is NaN. */
  lemma OrderComplement(lib: Library, field: string, value: string, e: Event.Event)
    requires field != ""
    ensures Eval(lib, Comparison(field, Gte, value, None), e)
        == Negated(Eval(lib, Comparison(field, Lt, value, None), e))
       <==> match Event.GetField(e, field)
            case None => false
            case Some(v) =>
              var a, b := lib.parseFloat(lib.format(v)), lib.parseFloat(value);
              a.Some? && b.Some? ==> a != Some(NaN) && b != Some(NaN)
  {
  }

  /** Order comparisons of a field that is there: an error when an operand does not parse, false for NaN, and
      otherwise exactly one of less, equal and greater, with `<=` and `>=` their unions. */
  lemma OrderOperators(lib: Library, field: string, value: string, e: Event.Event, v: Event.Value)
    requires field != "" && Event.GetField(e, field) == Some(v)
    ensures var a, b := lib.parseFloat(lib.format(v)), lib.parseFloat(value);
            var lt, lte := Eval(lib, Comparison(field, Lt, value, None), e),
                Eval(lib, Comparison(field, Lte, value, None), e);
            var gt, gte := Eval(lib, Comparison(field, Gt, value, None), e),
                Eval(lib, Comparison(field, Gte, value, None), e);
            if a.None? || b.None? then lt.Err? && lte.Err? && gt.Err? && gte.Err?
            else if a.value.NaN? || b.value.NaN? then lt == lte == gt == gte == Ok(false)
            else
              && lt.Ok? && gt.Ok? && lte == Ok(lt.value || a == b) && gte == Ok(gt.value || a == b)
              && (if a == b then !lt.value && !gt.value else lt.value != gt.value)
              && (a.value.Finite? && b.value.Finite? ==> (lt.value <==> a.value.r < b.value.r))
              && (a.value.NegInf? || b.value.PosInf? ==> !gt.value)
  {
  }

  predicate Placed(before: string, part: string, after: string, whole: string) { before + part + after == whole }

  /** `contains`, `startswith` and `endswith` find the value anywhere, first and last in the field's text. */
  lemma TextOperators(lib: Library, field: string, value: string, e: Event.Event, v: Event.Value)
    requires field != "" && Event.GetField(e, field) == Some(v)
    ensures Eval(lib, Comparison(field, ContainsOp, value, None), e)
        == Ok(exists a, b :: Placed(a, value, b, lib.format(v)))
    ensures Eval(lib, Comparison(field, StartsWith, value, None), e)
        == Ok(exists b :: Placed("", value, b, lib.format(v)))
    ensures Eval(lib, Comparison(field, EndsWith, value, None), e)
        == Ok(exists a :: Placed(a, value, "", lib.format(v)))
  {
    var text := lib.format(v);
    ContainsMeans(text, value);
    StartsMeans(text, value);
    EndsMeans(text, value);
    hide Placed, Contains, EndsIn, Event.GetField;
  }

  lemma ContainsMeans(text: string, value: string)
    ensures Contains(text, value) <==> exists a, b :: Placed(a, value, b, text)
  {
    if Contains(text, value) {
      var i :| 0 <= i <= |text| && value <= text[i..];
      PlacedAt(text, value, i);
    }
    forall a, b | Placed(a, value, b, text) ensures Contains(text, value) {
      assert text[|a|..] == value + b;
    }
  }

  lemma StartsMeans(text: string, value: string)
    ensures value <= text <==> exists b :: Placed("", value, b, text)
  {
    if value <= text { PlacedAt(text, value, 0); }
    forall b | Placed("", value, b, text) ensures value <= text {
      assert text == value + b;
    }
  }

  lemma EndsMeans(text: string, value: string)
    ensures EndsIn(text, value) <==> exists a :: Placed(a, value, "", text)
  {
    if EndsIn(text, value) { PlacedAt(text, value, |text| - |value|); }
    forall a | Placed(a, value, "", text) ensures EndsIn(text, value) {
      assert text[|a|..] == value;
    }
  }

  lemma PlacedAt(text: string, part: string, i: nat)
    requires i <= |text| && part <= text[i..]
    ensures Placed(text[..i], part, text[i + |part|..], text)
  {
    assert text[i..] == part + text[i..][|part|..];
  }

  // ----- what the parser guarantees the evaluator -----

  predicate Sound(lib: Library, c: Condition)
    decreases c
  {
    match c
    case And(all) => |all| >= 2 && forall i :: 0 <= i < |all| ==> Sound(lib, all[i])
    case Or(any) => |any| >= 2 && forall i :: 0 <= i < |any| ==> Sound(lib, any[i])
    case Not(operand) => Sound(lib, operand)
    case Comparison(field, op, value, regex) =>
      && field != "" && !op.Other?
      && regex == (if NeedsRegex(op) then Some(value) else None)
      && (NeedsRegex(op) ==> lib.compiles(value))
  }

  predicate AllSound(lib: Library, cs: seq<Condition>) {
    forall i :: 0 <= i < |cs| ==> Sound(lib, cs[i])
  }

  lemma {:induction false} ParseIsSound(lib: Library, input: string)
    ensures Parse(lib, input).Ok? ==> Sound(lib, Parse(lib, input).value)
    decreases |input|, 2, 0
  {
    var expr := Trim(input);
    if expr != "" {
      var ors, ands := SplitOutside(expr, OrSep), SplitOutside(expr, AndSep);
      PartsAreShorter(expr, OrSep);
      PartsAreShorter(expr, AndSep);
      hide SplitOutside, Trim;
      if |ors| > 1 {
        ParseAllIsSound(lib, ors, |input|);
      } else if |ands| > 1 {
        ParseAllIsSound(lib, ands, |input|);
      } else {
        ParseUnaryIsSound(lib, expr);
      }
    }
  }

  lemma {:induction false} ParseAllIsSound(lib: Library, parts: seq<string>, bound: nat)
    requires forall p :: p in parts ==> |p| < bound
    ensures var r := ParseAll(lib, parts, bound); r.Ok? ==> |r.value| == |parts| && AllSound(lib, r.value)
    decreases bound, 0, |parts|
  {
    if parts != [] {
      ParseIsSound(lib, parts[0]);
      ParseAllIsSound(lib, parts[1..], bound);
      hide Parse;
    }
  }

  lemma {:induction false} ParseUnaryIsSound(lib: Library, input: string)
    ensures ParseUnary(lib, input).Ok? ==> Sound(lib, ParseUnary(lib, input).value)
    decreases |input|, 1, 0
  {
    var expr := Trim(input);
    if expr == "" {
    } else if "NOT " <= expr {
      var operand := Trim(expr[4..]);
      if operand != "" { ParseUnaryIsSound(lib, operand); }
    } else {
      TrimIsTrimmed(input);
      StrippedIsShorter(expr);
      if Strip(expr) != expr {
        ParseIsSound(lib, Strip(expr));
      } else {
        if Trim(expr) != "" { TryOperatorsIsSound(lib, Trim(expr), 0); }
      }
    }
  }

  lemma TableHasNoOther(n: nat)
    requires n < OperatorCount
    ensures !OperatorAt(n).1.Other?
  {
  }

  lemma {:induction false} TryOperatorsIsSound(lib: Library, expr: string, n: nat)
    requires n <= OperatorCount
    ensures var r := TryOperators(lib, expr, n); r.Ok? ==> Sound(lib, r.value)
    decreases OperatorCount - n
  {
    hide OperatorAt, FindOperator, Trim, Unquote, TryOperators;
    if n < OperatorCount {
      TableHasNoOther(n);
      TryStep(lib, expr, n);
      if FindOperator(expr, OperatorAt(n).0).None? {
        TryOperatorsIsSound(lib, expr, n + 1);
      }
    } else {
      TryNone(lib, expr);
    }
  }

  /** The only error a parsed condition can evaluate to is a non-numeric operand of an order comparison. */
  lemma ParsedConditionsEvaluate(lib: Library, input: string, e: Event.Event)
    ensures Parse(lib, input).Ok? ==>
      var r := Eval(lib, Parse(lib, input).value, e); r.Ok? || r.error.NonNumeric?
  {
    ParseIsSound(lib, input);
    hide Parse;
    if Parse(lib, input).Ok? { SoundEvaluates(lib, Parse(lib, input).value, e); }
  }

  lemma {:induction false} SoundEvaluates(lib: Library, c: Condition, e: Event.Event)
    requires Sound(lib, c)
    ensures var r := Eval(lib, c, e); r.Ok? || r.error.NonNumeric?
    decreases c
  {
    match c
    case And(all) => AllSoundEvaluate(lib, all, e, false);
    case Or(any) => AllSoundEvaluate(lib, any, e, true);
    case Not(operand) => SoundEvaluates(lib, operand, e);
    case Comparison(_, _, _, _) =>
  }

  lemma {:induction false} AllSoundEvaluate(lib: Library, cs: seq<Condition>, e: Event.Event, stop: bool)
    requires AllSound(lib, cs)
    ensures var r := EvalUntil(lib, cs, e, stop); r.Ok? || r.error.NonNumeric?
    decreases cs
  {
    if cs != [] {
      SoundEvaluates(lib, cs[0], e);
      AllSoundEvaluate(lib, cs[1..], e, stop);
    }
  }
}
