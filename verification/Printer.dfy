/** Writing conditions back as text, and the parser as its inverse. */
module Printer {
  import opened Text
  import opened Scanner
  import opened Condition

  // ----- what can be written -----

  predicate PlainChar(c: char) {
    !IsSpace(c) && !IsQuote(c) && c != '(' && c != ')' && c != '\\'
  }

  predicate FieldName(f: string) {
    && f != "" && f != "NOT" && f != "AND" && f != "OR"
    && forall i :: 0 <= i < |f| ==> PlainChar(f[i])
  }

  /** Between quotes of this kind the value is read whole: every such quote in it is escaped, and the closing one is
      not. Escapes stay in the value; nothing is unescaped. */
  predicate QuotableBy(q: char, v: string) {
    !Escaped(v, |v|) && forall i :: 0 <= i < |v| && v[i] == q ==> Escaped(v, i)
  }

  predicate Quotable(v: string) { QuotableBy('"', v) }

  predicate Printable(c: Condition)
    decreases c
  {
    match c
    case And(all) => |all| >= 2 && forall i :: 0 <= i < |all| ==> Printable(all[i])
    case Or(any) => |any| >= 2 && forall i :: 0 <= i < |any| ==> Printable(any[i])
    case Not(operand) => Printable(operand)
    case Comparison(field, op, value, regex) =>
      FieldName(field) && !op.Other? && Quotable(value) && regex == if NeedsRegex(op) then Some(value) else None
  }

  function SymbolOf(op: Operator): string
    requires !op.Other?
  {
    match op
    case NotMatch => "!~"
    case Match => "=~"
    case Ne => "!="
    case Lte => "<="
    case Gte => ">="
    case Lt => "<"
    case Gt => ">"
    case Eq => "=="
    case ContainsOp => "contains"
    case StartsWith => "startswith"
    case EndsWith => "endswith"
    case In => "in"
  }

  // ----- the printer: parentheses only where precedence needs them -----

  /** Operands of an OR need parentheses when they are ORs, other operands when they are ANDs too. */
  predicate Grouped(c: Condition, inOr: bool) {
    c.Or? || (c.And? && !inOr)
  }

  function Print(c: Condition): string
    requires Printable(c)
    decreases c, 1
  {
    match c
    case And(all) => PrintAll(all, false)
    case Or(any) => PrintAll(any, true)
    case Not(operand) => "NOT " + if Grouped(operand, false) then "(" + Print(operand) + ")" else Print(operand)
    case Comparison(field, op, value, _) => field + " " + SymbolOf(op) + " \"" + value + "\""
  }

  function PrintAll(cs: seq<Condition>, inOr: bool): string
    requires cs != [] && forall i :: 0 <= i < |cs| ==> Printable(cs[i])
    decreases cs, 0
  {
    var head := if Grouped(cs[0], inOr) then "(" + Print(cs[0]) + ")" else Print(cs[0]);
    if |cs| == 1 then head else head + Separator(inOr) + PrintAll(cs[1..], inOr)
  }

  function Separator(inOr: bool): string { if inOr then OrSep else AndSep }

  function Operand(c: Condition, inOr: bool): string
    requires Printable(c)
  {
    if Grouped(c, inOr) then "(" + Print(c) + ")" else Print(c)
  }

  // ----- the ends of a printed text -----

  predicate GoodEnds(s: string) {
    s != "" && !IsSpace(s[0]) && (s[|s| - 1] == '"' || s[|s| - 1] == ')')
  }

  lemma {:induction false} PrintEnds(c: Condition)
    requires Printable(c)
    ensures GoodEnds(Print(c))
    decreases c, 1
  {
    match c
    case And(all) => PrintAllEnds(all, false);
    case Or(any) => PrintAllEnds(any, true);
    case Not(operand) => OperandEnds(operand, false);
    case Comparison(field, _, _, _) => assert PlainChar(field[0]);
  }

  lemma OperandEnds(c: Condition, inOr: bool)
    requires Printable(c)
    ensures GoodEnds(Operand(c, inOr))
    decreases c, 2
  {
    PrintEnds(c);
  }

  lemma {:induction false} PrintAllEnds(cs: seq<Condition>, inOr: bool)
    requires cs != [] && forall i :: 0 <= i < |cs| ==> Printable(cs[i])
    ensures GoodEnds(PrintAll(cs, inOr))
    decreases cs, 0
  {
    OperandEnds(cs[0], inOr);
    hide Print, Printable;
    if |cs| > 1 { PrintAllEnds(cs[1..], inOr); }
  }

  // ----- the first word -----

  predicate SpaceFree(w: string) { forall i :: 0 <= i < |w| ==> w[i] != ' ' }

  lemma NotFirstWord(word: string, f: string, rest: string)
    requires SpaceFree(word) && SpaceFree(f) && f != word
    ensures !(word + " " <= f + " " + rest)
  {
    if word + " " <= f + " " + rest {
      FirstWord(word, f, rest);
    }
  }

  lemma FirstWord(word: string, f: string, rest: string)
    requires SpaceFree(word) && SpaceFree(f) && word + " " <= f + " " + rest
    ensures f == word
  {
    var text, lead := f + " " + rest, word + " ";
    assert lead[|word|] == ' ' && text[|f|] == ' ';
    assert forall i :: 0 <= i < |word| ==> lead[i] == word[i];
    assert forall i :: 0 <= i < |f| ==> text[i] == f[i];
    assert |f| == |word|;
    assert f == text[..|f|] && word == lead[..|word|];
  }

  lemma HeadsDiffer(a: string, b: string)
    requires a != "" && b != "" && a[0] != b[0]
    ensures !(a <= b)
  {
  }

  /** `OR` and `AND`; for comparisons `NOT` as well. */
  predicate NoHeadWord(word: string, c: Condition) {
    word == "OR" || word == "AND" || (word == "NOT" && c.Comparison?)
  }

  lemma ComparisonFirstWord(c: Condition, word: string, rest: string)
    requires Printable(c) && c.Comparison? && NoHeadWord(word, c)
    ensures !(word + " " <= Print(c) + rest)
  {
    var Comparison(field, op, value, _) := c;
    forall i | 0 <= i < |field| ensures field[i] != ' ' { assert PlainChar(field[i]); }
    assert SpaceFree(word) && field != word;
    hide NoHeadWord, PlainChar, FieldName, SymbolOf;
    var tail := SymbolOf(op) + " \"" + value + "\"" + rest;
    assert Print(c) + rest == field + " " + tail;
    NotFirstWord(word, field, tail);
  }

  lemma NotTextFirstWord(c: Condition, word: string, rest: string)
    requires Printable(c) && c.Not? && NoHeadWord(word, c)
    ensures !(word + " " <= Print(c) + rest)
  {
    HeadsDiffer(word + " ", Print(c) + rest);
  }

  /** Printed text begins with `OR ` or `AND ` never, and comparisons do not begin with `NOT `. */
  lemma {:induction false} PrintFirstWord(c: Condition, word: string, rest: string)
    requires Printable(c) && NoHeadWord(word, c)
    ensures !(word + " " <= Print(c) + rest)
    decreases c, 1
  {
    match c
    case And(all) => PrintAllFirstWord(all, false, word, rest);
    case Or(any) => PrintAllFirstWord(any, true, word, rest);
    case Not(_) => NotTextFirstWord(c, word, rest);
    case Comparison(_, _, _, _) => ComparisonFirstWord(c, word, rest);
  }

  lemma OperandFirstWord(c: Condition, inOr: bool, word: string, rest: string)
    requires Printable(c) && (word == "OR" || word == "AND")
    ensures !(word + " " <= Operand(c, inOr) + rest)
    decreases c, 2
  {
    if Grouped(c, inOr) {
      HeadsDiffer(word + " ", Operand(c, inOr) + rest);
    } else {
      PrintFirstWord(c, word, rest);
    }
  }

  lemma {:induction false} PrintAllFirstWord(cs: seq<Condition>, inOr: bool, word: string, rest: string)
    requires cs != [] && forall i :: 0 <= i < |cs| ==> Printable(cs[i])
    requires word == "OR" || word == "AND"
    ensures !(word + " " <= PrintAll(cs, inOr) + rest)
    decreases cs, 0
  {
    hide Print, Printable, Grouped;
    if |cs| == 1 {
      OperandFirstWord(cs[0], inOr, word, rest);
    } else {
      var tail := Separator(inOr) + PrintAll(cs[1..], inOr) + rest;
      OperandFirstWord(cs[0], inOr, word, tail);
      assert PrintAll(cs, inOr) + rest == Operand(cs[0], inOr) + tail;
    }
  }
}
