/** How the scanner sees printed conditions: back to the same depth, and no cut but at top-level separators. */
module PrinterScan {
  import opened Text
  import opened Scanner
  import opened ScannerFold
  import opened Condition
  import opened Printer

  function At(depth: nat): Scan { Scan(None, depth, false) }

  function Word(inOr: bool): string { if inOr then "OR" else "AND" }

  lemma SeparatorIsWord(inOr: bool)
    ensures Separator(inOr) == " " + Word(inOr) + " "
  {
  }

  /** Scanned at `depth` and followed by `rest`, `u` is never cut and leaves the state as it was. */
  predicate Quiet(depth: nat, u: string, inOr: bool, rest: string) {
    NoCut(At(depth), u, Separator(inOr), rest) && Run(At(depth), u) == At(depth)
  }

  lemma QuietConcat(depth: nat, a: string, b: string, inOr: bool, rest: string)
    requires Quiet(depth, a, inOr, b + rest) && Quiet(depth, b, inOr, rest)
    ensures Quiet(depth, a + b, inOr, rest)
  {
    hide NoCut, Run, Separator;
    NoCutConcat(At(depth), a, b, Separator(inOr), rest);
    RunConcat(At(depth), a, b);
  }

  // ----- the pieces of a comparison -----

  lemma {:induction false} PlainQuiet(depth: nat, u: string, inOr: bool, rest: string)
    requires forall i :: 0 <= i < |u| ==> PlainChar(u[i])
    ensures Quiet(depth, u, inOr, rest)
    decreases |u|
  {
    if u != "" {
      assert PlainChar(u[0]);
      HeadsDiffer(Separator(inOr), u + rest);
      PlainQuiet(depth, u[1..], inOr, rest);
    }
  }

  lemma SpaceQuiet(depth: nat, inOr: bool, rest: string)
    requires depth >= 1 || !(Word(inOr) + " " <= rest)
    ensures Quiet(depth, " ", inOr, rest)
  {
    assert " "[1..] == "";
    if Separator(inOr) <= " " + rest {
      assert (Word(inOr) + " ") == Separator(inOr)[1..];
      assert rest == (" " + rest)[1..];
    }
  }

  lemma StepInQuotes(depth: nat, v: string, i: nat)
    requires Quotable(v) && i < |v|
    ensures Step(Scan(Some('"'), depth, Escaped(v, i)), v[i]) == Scan(Some('"'), depth, Escaped(v, i + 1))
  {
  }

  /** From any place in a quoted value the scanner reads on to its end without leaving the quote. */
  lemma {:induction false} QuotedBody(depth: nat, v: string, i: nat, inOr: bool, rest: string)
    requires Quotable(v) && i <= |v|
    ensures var open := Scan(Some('"'), depth, Escaped(v, i));
            NoCut(open, v[i..], Separator(inOr), rest) && Run(open, v[i..]) == Scan(Some('"'), depth, false)
    decreases |v| - i
  {
    hide Separator, Step, Escaped;
    if i < |v| {
      StepInQuotes(depth, v, i);
      QuotedBody(depth, v, i + 1, inOr, rest);
      assert v[i..][1..] == v[i + 1..];
    }
  }

  lemma QuotedQuiet(depth: nat, v: string, inOr: bool, rest: string)
    requires Quotable(v)
    ensures Quiet(depth, "\"" + v + "\"", inOr, rest)
  {
    var open, quote, sep := Scan(Some('"'), depth, false), "\"", Separator(inOr);
    assert quote[1..] == "" && Step(At(depth), '"') == open && Step(open, '"') == At(depth);
    assert Run(At(depth), quote) == open && Run(open, quote) == At(depth);
    HeadsDiffer(sep, quote + (v + quote + rest));
    assert NoCut(At(depth), quote, sep, v + quote + rest);
    assert NoCut(open, quote, sep, rest);
    QuotedBody(depth, v, 0, inOr, quote + rest);
    assert v[0..] == v;
    hide NoCut, Run, Separator, Step;
    assert v + (quote + rest) == v + quote + rest;
    NoCutConcat(open, v, quote, sep, rest);
    RunConcat(open, v, quote);
    NoCutConcat(At(depth), quote, v + quote, sep, rest);
    RunConcat(At(depth), quote, v + quote);
    assert quote + (v + quote) == quote + v + quote;
    assert v + quote + rest == (v + quote) + rest;
  }

  lemma SymbolIsPlain(op: Operator)
    requires !op.Other?
    ensures var s := SymbolOf(op);
            s != "" && s[0] != 'O' && s[0] != 'A' && forall i :: 0 <= i < |s| ==> PlainChar(s[i])
  {
  }

  lemma ComparisonQuiet(c: Condition, depth: nat, inOr: bool, rest: string)
    requires Printable(c) && c.Comparison?
    ensures Quiet(depth, Print(c), inOr, rest)
  {
    var Comparison(field, op, value, _) := c;
    SymbolIsPlain(op);
    ThreePartsQuiet(field, SymbolOf(op), value, depth, inOr, rest);
    hide Quiet, SymbolOf, PlainChar, Quotable, FieldName;
    Regroup(field, SymbolOf(op), value);
  }

  lemma Regroup(field: string, symbol: string, value: string)
    ensures field + " " + symbol + " \"" + value + "\"" == field + (" " + (symbol + (" " + ("\"" + value + "\""))))
  {
    assert " \"" == " " + "\"";
  }

  lemma ThreePartsQuiet(field: string, symbol: string, value: string, depth: nat, inOr: bool, rest: string)
    requires (forall i :: 0 <= i < |field| ==> PlainChar(field[i])) && Quotable(value)
    requires symbol != "" && symbol[0] != 'O' && symbol[0] != 'A'
    requires forall i :: 0 <= i < |symbol| ==> PlainChar(symbol[i])
    ensures Quiet(depth, field + (" " + (symbol + (" " + ("\"" + value + "\"")))), inOr, rest)
  {
    var quoted := "\"" + value + "\"";
    assert Word(inOr) != "" && (Word(inOr)[0] == 'O' || Word(inOr)[0] == 'A');
    hide Quiet, Word, PlainChar, Quotable;
    QuotedQuiet(depth, value, inOr, rest);
    HeadsDiffer(Word(inOr) + " ", quoted + rest);
    SpaceQuiet(depth, inOr, quoted + rest);
    QuietConcat(depth, " ", quoted, inOr, rest);
    var tail := " " + quoted;
    PlainQuiet(depth, symbol, inOr, tail + rest);
    QuietConcat(depth, symbol, tail, inOr, rest);
    HeadsDiffer(Word(inOr) + " ", symbol + tail + rest);
    SpaceQuiet(depth, inOr, symbol + tail + rest);
    QuietConcat(depth, " ", symbol + tail, inOr, rest);
    PlainQuiet(depth, field, inOr, " " + (symbol + tail) + rest);
    QuietConcat(depth, field, " " + (symbol + tail), inOr, rest);
  }

  // ----- whole conditions -----

  lemma GroupQuiet(depth: nat, u: string, inOr: bool, rest: string)
    requires Quiet(depth + 1, u, inOr, ")" + rest)
    ensures Quiet(depth, "(" + u + ")", inOr, rest)
  {
    var open, close, sep := "(", ")", Separator(inOr);
    assert open[1..] == "" && close[1..] == "";
    assert Run(At(depth), open) == At(depth + 1) && Run(At(depth + 1), close) == At(depth);
    HeadsDiffer(sep, open + (u + close + rest));
    assert NoCut(At(depth), open, sep, u + close + rest);
    assert NoCut(At(depth + 1), close, sep, rest);
    hide NoCut, Run, Separator;
    NoCutConcat(At(depth + 1), u, close, sep, rest);
    RunConcat(At(depth + 1), u, close);
    NoCutConcat(At(depth), open, u + close, sep, rest);
    RunConcat(At(depth), open, u + close);
    assert open + (u + close) == open + u + close;
    assert u + close + rest == (u + close) + rest;
  }

  /** At any inner depth, and at the top for text that needs no parentheses there, no cut falls into it. */
  lemma {:induction false} PrintQuiet(c: Condition, depth: nat, inOr: bool, rest: string)
    requires Printable(c) && (depth >= 1 || !Grouped(c, inOr))
    ensures Quiet(depth, Print(c), inOr, rest)
    decreases c, 1
  {
    match c
    case And(all) => PrintAllQuiet(all, false, depth, inOr, rest);
    case Or(any) => PrintAllQuiet(any, true, depth, inOr, rest);
    case Not(operand) =>
      OperandQuiet(operand, false, depth, true, rest);
      OperandQuiet(operand, false, depth, inOr, rest);
      OperandFirstWord(operand, false, Word(inOr), rest);
      assert Print(c) == "NOT" + (" " + Operand(operand, false));
      hide Quiet, Print, Word, Operand;
      SpaceQuiet(depth, inOr, Operand(operand, false) + rest);
      QuietConcat(depth, " ", Operand(operand, false), inOr, rest);
      PlainQuiet(depth, "NOT", inOr, " " + Operand(operand, false) + rest);
      QuietConcat(depth, "NOT", " " + Operand(operand, false), inOr, rest);
    case Comparison(_, _, _, _) => ComparisonQuiet(c, depth, inOr, rest);
  }

  /** An operand of an AND (or OR, or NOT) list, under the scan for either separator. */
  lemma OperandQuiet(c: Condition, joinOr: bool, depth: nat, inOr: bool, rest: string)
    requires Printable(c) && (depth >= 1 || !joinOr || inOr)
    ensures Quiet(depth, Operand(c, joinOr), inOr, rest)
    decreases c, 2
  {
    if Grouped(c, joinOr) {
      PrintQuiet(c, depth + 1, inOr, ")" + rest);
      GroupQuiet(depth, Print(c), inOr, rest);
    } else {
      PrintQuiet(c, depth, inOr, rest);
    }
  }

  lemma {:induction false} PrintAllQuiet(cs: seq<Condition>, joinOr: bool, depth: nat, inOr: bool, rest: string)
    requires cs != [] && forall i :: 0 <= i < |cs| ==> Printable(cs[i])
    requires depth >= 1 || (inOr && !joinOr)
    ensures Quiet(depth, PrintAll(cs, joinOr), inOr, rest)
    decreases cs, 0
  {
    hide Print, Printable, Grouped, Quiet;
    if |cs| == 1 {
      OperandQuiet(cs[0], joinOr, depth, inOr, rest);
    } else {
      var head, sep, tail := Operand(cs[0], joinOr), Separator(joinOr), PrintAll(cs[1..], joinOr);
      PrintAllQuiet(cs[1..], joinOr, depth, inOr, rest);
      PrintAllFirstWord(cs[1..], joinOr, Word(inOr), rest);
      SeparatorQuiet(joinOr, depth, inOr, tail + rest);
      QuietConcat(depth, sep, tail, inOr, rest);
      OperandQuiet(cs[0], joinOr, depth, inOr, sep + tail + rest);
      QuietConcat(depth, head, sep + tail, inOr, rest);
      assert head + (sep + tail) == PrintAll(cs, joinOr);
    }
  }

  lemma SeparatorQuiet(joinOr: bool, depth: nat, inOr: bool, rest: string)
    requires depth >= 1 || (joinOr != inOr && !(Word(inOr) + " " <= rest))
    ensures Quiet(depth, Separator(joinOr), inOr, rest)
  {
    var word := Word(joinOr);
    assert forall i :: 0 <= i < |word| ==> PlainChar(word[i]);
    assert joinOr != inOr ==> !(Word(inOr) + " " <= word + " " + rest) by {
      HeadsDifferIf(Word(inOr) + " ", word + " " + rest);
    }
    assert Separator(joinOr) == " " + (word + " ");
    hide Quiet, Word;
    SpaceQuiet(depth, inOr, rest);
    PlainQuiet(depth, word, inOr, " " + rest);
    QuietConcat(depth, word, " ", inOr, rest);
    SpaceQuiet(depth, inOr, word + " " + rest);
    QuietConcat(depth, " ", word + " ", inOr, rest);
  }

  lemma HeadsDifferIf(a: string, b: string)
    ensures a != "" && b != "" && a[0] != b[0] ==> !(a <= b)
  {
  }
}
