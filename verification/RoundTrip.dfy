/** Parsing a printed condition gives the condition back: exactly when, and for which conditions. */
module RoundTrip {
  import opened Text
  import opened Scanner
  import opened ScannerFold
  import opened Condition
  import opened Printer
  import opened PrinterScan
  import ParseLaws

  // ----- parentheses inside quoted values -----

  /** Every parenthesis, quoted or not, is matched within `s`. */
  predicate Matched(s: string) {
    Balance(s, |s|) == 0 && forall i :: 0 <= i <= |s| ==> Balance(s, i) >= 0
  }

  lemma {:induction false} BalanceInGroup(s: string, i: nat)
    requires i <= |s|
    ensures Balance("(" + s + ")", i + 1) == 1 + Balance(s, i)
  {
    var group := "(" + s + ")";
    if i == 0 {
      assert Balance(group, 0) == 0;
    } else {
      BalanceInGroup(s, i - 1);
      assert group[i] == s[i - 1];
    }
  }

  /** Stripping undoes grouping exactly when the parentheses inside match. */
  lemma StripGroup(s: string)
    ensures Strip("(" + s + ")") == if Matched(s) then s else "(" + s + ")"
  {
    var group := "(" + s + ")";
    TrimOfTrimmed(group);
    assert group[1..|group| - 1] == s;
    if Matched(s) { MatchedIsOuterPair(s); }
    if OuterPair(group) { OuterPairIsMatched(s); }
  }

  lemma MatchedIsOuterPair(s: string)
    requires Matched(s)
    ensures OuterPair("(" + s + ")")
  {
    var group := "(" + s + ")";
    forall i | 0 < i < |group| ensures Balance(group, i) >= 1 {
      BalanceInGroup(s, i - 1);
    }
    BalanceInGroup(s, |s|);
  }

  lemma OuterPairIsMatched(s: string)
    requires OuterPair("(" + s + ")")
    ensures Matched(s)
  {
    var group := "(" + s + ")";
    forall i | 0 <= i <= |s| ensures Balance(s, i) >= 0 {
      BalanceInGroup(s, i);
    }
    BalanceInGroup(s, |s|);
  }

  /** What a caller can check before relying on the round trip: the patterns compile, and wherever the
      printer has to write a parenthesised group, the parentheses in its quoted values match up. */
  predicate Faithful(lib: Library, c: Condition)
    requires Printable(c)
    decreases c
  {
    match c
    case And(all) => forall i :: 0 <= i < |all| ==>
        Faithful(lib, all[i]) && (Grouped(all[i], false) ==> Matched(Print(all[i])))
    case Or(any) => forall i :: 0 <= i < |any| ==>
        Faithful(lib, any[i]) && (Grouped(any[i], true) ==> Matched(Print(any[i])))
    case Not(operand) => Faithful(lib, operand) && (Grouped(operand, false) ==> Matched(Print(operand)))
    case Comparison(_, op, value, _) => NeedsRegex(op) ==> lib.compiles(value)
  }

  predicate FaithfulOperand(lib: Library, c: Condition, inOr: bool)
    requires Printable(c)
  {
    Faithful(lib, c) && (Grouped(c, inOr) ==> Matched(Print(c)))
  }

  // ----- parsing a comparison -----

  lemma PrintedIsText(c: Condition)
    requires Printable(c) && c.Comparison?
    ensures Print(c) == ParseLaws.TextOf(c.field, SymbolOf(c.op), "", ['"'] + c.value + ['"'])
    ensures ParseLaws.FieldLead(c.field, c.field)
    ensures ParseLaws.Spelled(SymbolOf(c.op), c.op)
  {
    assert " \"" == " " + ['"'] && "\"" == ['"'];
    assert ParseLaws.LeadIs(c.field, c.field, "") by { assert c.field + "" == c.field; }
  }

  lemma ComparisonRoundTrip(lib: Library, c: Condition)
    requires Printable(c) && c.Comparison?
    ensures ParseUnary(lib, Print(c)) == Ok(c) <==> Faithful(lib, c)
  {
    PrintedIsText(c);
    ParseLaws.QuotedIsClosed('"', c.value);
    hide ParseUnary, Unquote, SymbolOf, Print, ParseLaws.Spelled, ParseLaws.TextOf, ParseLaws.FieldLead;
    ParseLaws.ParsesTo(lib, c.field, c.field, SymbolOf(c.op), c.op, "", ['"'] + c.value + ['"']);
  }

  // ----- splitting a printed list -----

  function Operands(cs: seq<Condition>, inOr: bool): (r: seq<string>)
    requires forall i :: 0 <= i < |cs| ==> Printable(cs[i])
    ensures |r| == |cs|
  {
    if cs == [] then [] else [Operand(cs[0], inOr)] + Operands(cs[1..], inOr)
  }

  lemma OperandIsTrimmed(c: Condition, inOr: bool)
    requires Printable(c)
    ensures Operand(c, inOr) != "" && Trimmed(Operand(c, inOr))
  {
    OperandEnds(c, inOr);
  }

  /** A printed AND or OR splits at its own separator into exactly its operands. */
  lemma {:induction false} PrintedListSplits(cs: seq<Condition>, inOr: bool)
    requires cs != [] && forall i :: 0 <= i < |cs| ==> Printable(cs[i])
    ensures SplitOutside(PrintAll(cs, inOr), Separator(inOr)) == Operands(cs, inOr)
    decreases |cs|
  {
    var head, sep := Operand(cs[0], inOr), Separator(inOr);
    OperandIsTrimmed(cs[0], inOr);
    assert Start == At(0);
    if |cs| == 1 {
      OperandQuiet(cs[0], inOr, 0, inOr, "");
      hide Operand, Print, Printable, Grouped, Separator, Trimmed;
      SingleString(head, sep);
      assert cs[1..] == [];
    } else {
      var rest := PrintAll(cs[1..], inOr);
      OperandQuiet(cs[0], inOr, 0, inOr, sep + rest);
      SeparatorRuns(inOr);
      assert PrintAll(cs, inOr) == head + sep + rest;
      hide Operand, Print, Printable, Grouped, Separator, Trimmed, PrintAll;
      SplitHead(head, sep, rest);
      PrintedListSplits(cs[1..], inOr);
    }
  }

  lemma SeparatorRuns(inOr: bool)
    ensures Run(Start, Separator(inOr)) == Start
  {
    SeparatorIsWord(inOr);
    PlainQuiet(0, Word(inOr), inOr, "");
    RunConcat(Start, " " + Word(inOr), " ");
    RunConcat(Start, " ", Word(inOr));
  }

  // ----- the round trip -----

  /** A text that splits at neither separator is parsed as a unary expression. */
  lemma ParseUnsplit(lib: Library, u: string)
    requires u != "" && Trimmed(u)
    requires SplitOutside(u, OrSep) == [u] && SplitOutside(u, AndSep) == [u]
    ensures Parse(lib, u) == ParseUnary(lib, u)
  {
    TrimOfTrimmed(u);
    hide SplitOutside, Trim, ParseUnary;
  }

  /** An operand of NOT or AND is never split. */
  lemma OperandUnsplit(lib: Library, c: Condition)
    requires Printable(c)
    ensures Parse(lib, Operand(c, false)) == ParseUnary(lib, Operand(c, false))
  {
    var u := Operand(c, false);
    OperandIsTrimmed(c, false);
    OperandQuiet(c, false, 0, true, "");
    OperandQuiet(c, false, 0, false, "");
    hide Operand;
    SingleString(u, OrSep);
    SingleString(u, AndSep);
    ParseUnsplit(lib, u);
  }

  /** A parenthesised group parses back exactly when it is stripped and its inside parses back. */
  lemma GroupIff(lib: Library, c: Condition)
    requires Printable(c) && (c.And? || c.Or?)
    ensures ParseUnary(lib, "(" + Print(c) + ")") == Ok(c) <==> Matched(Print(c)) && Parse(lib, Print(c)) == Ok(c)
  {
    var inside, group := Print(c), "(" + Print(c) + ")";
    hide Print, Printable, Matched;
    TrimOfTrimmed(group);
    HeadsDiffer("NOT ", group);
    StripGroup(inside);
    if !Matched(inside) {
      ParseComparisonIsComparison(lib, group);
      hide Parse, ParseComparison, Strip;
    } else {
      hide Parse, Strip;
    }
  }

  lemma ParseComparisonIsComparison(lib: Library, text: string)
    ensures var r := ParseComparison(lib, text); r.Ok? ==> r.value.Comparison?
  {
    hide TryOperators, Trim;
    TryOperatorsGiveComparisons(lib, Trim(text), 0);
  }

  lemma {:induction false} TryOperatorsGiveComparisons(lib: Library, text: string, n: nat)
    requires n <= OperatorCount
    ensures var r := TryOperators(lib, text, n); r.Ok? ==> r.value.Comparison?
    decreases OperatorCount - n
  {
    if n < OperatorCount {
      TryStep(lib, text, n);
      hide OperatorAt, FindOperator, Trim, Unquote, TryOperators;
      TryOperatorsGiveComparisons(lib, text, n + 1);
    } else {
      TryNone(lib, text);
    }
  }

  /** The round trip, exactly: a printed condition parses back to itself if and only if it is faithful. */
  lemma {:induction false} ParsePrint(lib: Library, c: Condition)
    requires Printable(c)
    ensures Parse(lib, Print(c)) == Ok(c) <==> Faithful(lib, c)
    decreases c, 1
  {
    match c
    case And(all) => AndRoundTrip(lib, c);
    case Or(any) => OrRoundTrip(lib, c);
    case Not(operand) => NotRoundTrip(lib, c);
    case Comparison(_, _, _, _) =>
      OperandUnsplit(lib, c);
      ComparisonRoundTrip(lib, c);
  }

  lemma {:induction false} OperandIff(lib: Library, c: Condition, inOr: bool)
    requires Printable(c)
    ensures Parse(lib, Operand(c, inOr)) == Ok(c) <==> FaithfulOperand(lib, c, inOr)
    decreases c, 2
  {
    ParsePrint(lib, c);
    if Grouped(c, inOr) {
      GroupIff(lib, c);
      OperandUnsplit(lib, c);
    }
  }

  lemma ParseNotText(lib: Library, operand: string)
    requires operand != "" && Trimmed(operand)
    ensures var inner := ParseUnary(lib, operand);
            ParseUnary(lib, "NOT " + operand) == if inner.Err? then inner else Ok(Not(inner.value))
  {
    var text := "NOT " + operand;
    assert text[4..] == operand && "NOT " <= text;
    TrimOfTrimmed(text);
    TrimOfTrimmed(operand);
    hide Trim, Trimmed;
  }

  lemma NotRoundTrip(lib: Library, c: Condition)
    requires Printable(c) && c.Not?
    ensures Parse(lib, Print(c)) == Ok(c) <==> Faithful(lib, c)
    decreases c, 0
  {
    assert Print(c) == "NOT " + Operand(c.operand, false) && Operand(c, false) == Print(c);
    OperandIff(lib, c.operand, false);
    OperandUnsplit(lib, c.operand);
    OperandIsTrimmed(c.operand, false);
    OperandUnsplit(lib, c);
    hide Print, Operand, Parse, Trimmed, ParseUnary;
    ParseNotText(lib, Operand(c.operand, false));
  }

  lemma CombineIff(head: Result<Condition>, tail: Result<seq<Condition>>, cs: seq<Condition>)
    requires cs != []
    ensures Combine(head, tail) == Ok(cs) <==> head == Ok(cs[0]) && tail == Ok(cs[1..])
  {
    if tail.Ok? && head.Ok? && tail.value == cs[1..] && head.value == cs[0] { assert [cs[0]] + cs[1..] == cs; }
    if Combine(head, tail) == Ok(cs) { assert ([head.value] + tail.value)[1..] == tail.value; }
  }

  /** The operands of a list all parse back exactly when the list of parts does. */
  lemma {:induction false} ListIff(lib: Library, cs: seq<Condition>, inOr: bool, bound: nat)
    requires forall i :: 0 <= i < |cs| ==> Printable(cs[i])
    requires forall p :: p in Operands(cs, inOr) ==> |p| < bound
    ensures ParseAll(lib, Operands(cs, inOr), bound) == Ok(cs)
       <==> forall i :: 0 <= i < |cs| ==> FaithfulOperand(lib, cs[i], inOr)
    decreases cs, 0
  {
    if cs != [] {
      assert Operands(cs, inOr) == [Operand(cs[0], inOr)] + Operands(cs[1..], inOr);
      OperandIff(lib, cs[0], inOr);
      ListIff(lib, cs[1..], inOr, bound);
      hide Parse, Operand, FaithfulOperand, Printable, Operands, Combine;
      assert Operands(cs, inOr)[1..] == Operands(cs[1..], inOr);
      CombineIff(Parse(lib, Operand(cs[0], inOr)), ParseAll(lib, Operands(cs[1..], inOr), bound), cs);
    }
  }

  lemma ParseSplitText(lib: Library, text: string, inOr: bool)
    requires text != "" && Trimmed(text) && |SplitOutside(text, Separator(inOr))| > 1
    requires !inOr ==> |SplitOutside(text, OrSep)| <= 1
    ensures forall p :: p in SplitOutside(text, Separator(inOr)) ==> |p| < |text|
    ensures var r := ParseAll(lib, SplitOutside(text, Separator(inOr)), |text|);
            Parse(lib, text) == if r.Err? then Err(r.error) else Ok(if inOr then Or(r.value) else And(r.value))
  {
    TrimOfTrimmed(text);
    PartsAreShorter(text, Separator(inOr));
    hide SplitOutside, Trim, ParseAll, ParseUnary, Trimmed;
  }

  lemma ListRoundTrip(lib: Library, cs: seq<Condition>, inOr: bool)
    requires |cs| >= 2 && forall i :: 0 <= i < |cs| ==> Printable(cs[i])
    requires !inOr ==> |SplitOutside(PrintAll(cs, inOr), OrSep)| <= 1
    ensures Parse(lib, PrintAll(cs, inOr)) == Ok(if inOr then Or(cs) else And(cs))
       <==> forall i :: 0 <= i < |cs| ==> FaithfulOperand(lib, cs[i], inOr)
    decreases cs, 1
  {
    var text := PrintAll(cs, inOr);
    PrintedListSplits(cs, inOr);
    PrintAllEnds(cs, inOr);
    assert text != "" && Trimmed(text);
    hide Operands, PrintAll, SplitOutside, Trimmed, Parse, ParseAll, FaithfulOperand, Printable, Separator;
    ParseSplitText(lib, text, inOr);
    ListIff(lib, cs, inOr, |text|);
  }

  lemma OrRoundTrip(lib: Library, c: Condition)
    requires Printable(c) && c.Or?
    ensures Parse(lib, Print(c)) == Ok(c) <==> Faithful(lib, c)
    decreases c, 0
  {
    ListRoundTrip(lib, c.any, true);
    hide Parse, PrintAll;
  }

  lemma AndRoundTrip(lib: Library, c: Condition)
    requires Printable(c) && c.And?
    ensures Parse(lib, Print(c)) == Ok(c) <==> Faithful(lib, c)
    decreases c, 0
  {
    PrintQuiet(c, 0, true, "");
    PrintEnds(c);
    hide PrintAll, Parse, SplitOutside;
    SingleString(Print(c), OrSep);
    ListRoundTrip(lib, c.all, false);
  }

  // ----- which conditions are faithful -----

  lemma {:induction false} BalanceConcat(a: string, b: string, i: nat)
    requires i <= |b|
    ensures Balance(a + b, |a| + i) == Balance(a, |a|) + Balance(b, i)
  {
    if i == 0 {
      BalancePrefix(a, b, |a|);
    } else {
      BalanceConcat(a, b, i - 1);
      assert (a + b)[|a| + i - 1] == b[i - 1];
    }
  }

  lemma {:induction false} BalancePrefix(a: string, b: string, i: nat)
    requires i <= |a|
    ensures Balance(a + b, i) == Balance(a, i)
  {
    if i > 0 {
      BalancePrefix(a, b, i - 1);
      assert (a + b)[i - 1] == a[i - 1];
    }
  }

  lemma MatchedConcat(a: string, b: string)
    requires Matched(a) && Matched(b)
    ensures Matched(a + b)
  {
    forall i | 0 <= i <= |a + b| ensures Balance(a + b, i) >= 0 {
      if i <= |a| { BalancePrefix(a, b, i); } else { BalanceConcat(a, b, i - |a|); }
    }
    BalanceConcat(a, b, |b|);
  }

  lemma MatchedGroup(s: string)
    requires Matched(s)
    ensures Matched("(" + s + ")")
  {
    MatchedIsOuterPair(s);
  }

  lemma {:induction false} NoParensMatched(s: string, i: nat)
    requires i <= |s| && forall k :: 0 <= k < |s| ==> s[k] != '(' && s[k] != ')'
    ensures Balance(s, i) == 0
  {
    if i > 0 { NoParensMatched(s, i - 1); }
  }

  lemma WithoutParens(s: string)
    requires forall k :: 0 <= k < |s| ==> s[k] != '(' && s[k] != ')'
    ensures Matched(s)
  {
    forall i | 0 <= i <= |s| ensures Balance(s, i) == 0 { NoParensMatched(s, i); }
  }

  /** Each quoted value has matched parentheses (none at all, say), and each pattern compiles. */
  predicate MatchedValues(lib: Library, c: Condition)
    decreases c
  {
    match c
    case And(all) => forall i :: 0 <= i < |all| ==> MatchedValues(lib, all[i])
    case Or(any) => forall i :: 0 <= i < |any| ==> MatchedValues(lib, any[i])
    case Not(operand) => MatchedValues(lib, operand)
    case Comparison(_, op, value, _) => Matched(value) && (NeedsRegex(op) ==> lib.compiles(value))
  }

  lemma {:induction false} PrintIsMatched(lib: Library, c: Condition)
    requires Printable(c) && MatchedValues(lib, c)
    ensures Matched(Print(c)) && Faithful(lib, c)
    decreases c, 1
  {
    match c
    case And(all) => PrintAllIsMatched(lib, all, false);
    case Or(any) => PrintAllIsMatched(lib, any, true);
    case Not(operand) =>
      PrintIsMatched(lib, operand);
      MatchedGroup(Print(operand));
      WithoutParens("NOT ");
      hide Matched, Print;
      MatchedConcat("NOT ", Operand(operand, false));
    case Comparison(field, op, value, _) =>
      SymbolIsPlain(op);
      var lead := field + " " + SymbolOf(op) + " \"";
      WithoutParens(lead);
      WithoutParens("\"");
      hide Matched, SymbolOf;
      MatchedConcat(lead, value);
      MatchedConcat(lead + value, "\"");
  }

  lemma {:induction false} PrintAllIsMatched(lib: Library, cs: seq<Condition>, inOr: bool)
    requires cs != [] && forall i :: 0 <= i < |cs| ==> Printable(cs[i]) && MatchedValues(lib, cs[i])
    ensures Matched(PrintAll(cs, inOr)) && forall i :: 0 <= i < |cs| ==> FaithfulOperand(lib, cs[i], inOr)
    decreases cs, 0
  {
    PrintIsMatched(lib, cs[0]);
    MatchedGroup(Print(cs[0]));
    assert Matched(Operand(cs[0], inOr)) && FaithfulOperand(lib, cs[0], inOr);
    if |cs| > 1 {
      PrintAllIsMatched(lib, cs[1..], inOr);
      WithoutParens(Separator(inOr));
      assert PrintAll(cs, inOr) == Operand(cs[0], inOr) + Separator(inOr) + PrintAll(cs[1..], inOr);
      hide Matched, Operand, PrintAll, Separator, FaithfulOperand, Printable, MatchedValues, Print;
      MatchedConcat(Operand(cs[0], inOr), Separator(inOr));
      MatchedConcat(Operand(cs[0], inOr) + Separator(inOr), PrintAll(cs[1..], inOr));
      forall i | 0 <= i < |cs| ensures FaithfulOperand(lib, cs[i], inOr) {
        if i > 0 { assert cs[1..][i - 1] == cs[i]; }
      }
    }
  }

  /** Every printable condition whose values have matched parentheses survives printing and parsing. */
  lemma ParseUndoesPrint(lib: Library, c: Condition)
    requires Printable(c) && MatchedValues(lib, c)
    ensures Parse(lib, Print(c)) == Ok(c)
  {
    PrintIsMatched(lib, c);
    ParsePrint(lib, c);
  }

  /** Quotes are ignored when parentheses are stripped: NOT (a == ")" OR b == "x") does not survive. */
  lemma QuotedParenthesisBreaks(lib: Library)
    ensures var c := Not(Or([Comparison("a", Eq, ")", None), Comparison("b", Eq, "x", None)]));
            Printable(c) && Parse(lib, Print(c)) != Ok(c)
  {
    var a, b := Comparison("a", Eq, ")", None), Comparison("b", Eq, "x", None);
    assert Printable(a) && Printable(b);
    var inner := Or([a, b]);
    var c := Not(inner);
    var text := Print(inner);
    assert text == PrintAll([a, b], true);
    assert text == Print(a) + OrSep + PrintAll([a, b][1..], true);
    assert Print(a) == "a == \")\"";
    var tail := "\"" + OrSep + PrintAll([a, b][1..], true);
    assert text == "a == \")" + tail;
    ClosesFirst(tail);
    assert Grouped(inner, false) && !Faithful(lib, c);
    hide Faithful, Print, Parse, Printable, Matched;
    ParsePrint(lib, c);
  }

  lemma ClosesFirst(tail: string)
    ensures !Matched("a == \")" + tail)
  {
    var head := "a == \")";
    BalancePrefix(head, tail, 7);
    assert Balance(head, 7) == Balance(head, 6) - 1;
    NoParensMatched("a == \"", 6);
    assert head == "a == \"" + ")";
    BalancePrefix("a == \"", ")", 6);
  }
}
