/** What conditions answer, operator by operator, and what AND, OR and lists come to. */
module EvaluationLaws {
  import opened Text
  import opened Scanner
  import opened Condition
  import opened Evaluation
  import Event

  // ----- comparisons -----

  /** A field that is there equals the value exactly when it is written so, and matches as its pattern does. */
  lemma EqualityAndMatch(lib: Library, field: string, value: string, e: Event.Event, v: Event.Value)
    requires field != "" && Event.GetField(e, field) == Some(v)
    ensures Eval(lib, Comparison(field, Eq, value, None), e) == Ok(lib.format(v) == value)
    ensures Eval(lib, Comparison(field, Ne, value, None), e) == Ok(lib.format(v) != value)
    ensures Eval(lib, Comparison(field, Match, value, Some(value)), e) == Ok(lib.matches(value, lib.format(v)))
    ensures Eval(lib, Comparison(field, NotMatch, value, Some(value)), e) == Ok(!lib.matches(value, lib.format(v)))
  {
  }

  /** Without the field only `!=` and `!~` hold, whatever the value; no operator errs. */
  lemma AbsentField(lib: Library, field: string, op: Operator, value: string, regex: Option<string>, e: Event.Event)
    requires field != "" && Event.GetField(e, field) == None
    ensures Eval(lib, Comparison(field, op, value, regex), e) == Ok(op in {Ne, NotMatch})
  {
  }

  /** Exactly these comparisons err: without a field name, a pattern not compiled, operands that are no numbers for an
      order, and operators that are unknown. */
  lemma ComparisonErrs(lib: Library, c: Condition, e: Event.Event)
    requires c.Comparison?
    ensures var found, r := Event.GetField(e, c.field), Eval(lib, c, e);
            if c.field == "" then r == Err(MissingField)
            else if found.None? then r.Ok?
            else
              var text := lib.format(found.value);
              match c.op
              case Match => r.Err? <==> c.regex.None?
              case NotMatch => r.Err? <==> c.regex.None?
              case Lt => r.Err? <==> lib.parseFloat(text).None? || lib.parseFloat(c.value).None?
              case Lte => r.Err? <==> lib.parseFloat(text).None? || lib.parseFloat(c.value).None?
              case Gt => r.Err? <==> lib.parseFloat(text).None? || lib.parseFloat(c.value).None?
              case Gte => r.Err? <==> lib.parseFloat(text).None? || lib.parseFloat(c.value).None?
              case Other(name) => r == Err(UnknownOperator(name))
              case _ => r.Ok?
  {
  }

  // ----- NOT, AND, OR -----

  lemma NotMeans(lib: Library, c: Condition, e: Event.Event)
    ensures Eval(lib, Not(c), e) == match Eval(lib, c, e) case Ok(b) => Ok(!b) case Err(error) => Err(error)
  {
  }

  /** All of the first `n` conditions evaluate to `b`. */
  ghost predicate AllAre(lib: Library, cs: seq<Condition>, n: nat, e: Event.Event, b: bool)
    requires n <= |cs|
  {
    forall i :: 0 <= i < n ==> Eval(lib, cs[i], e) == Ok(b)
  }

  /** The `n`-th condition is the first that is not simply `b`, and decides. */
  lemma {:induction false} UntilDecides(lib: Library, cs: seq<Condition>, e: Event.Event, stop: bool) returns (n: nat)
    ensures n <= |cs| && AllAre(lib, cs, n, e, !stop)
    ensures EvalUntil(lib, cs, e, stop) == if n == |cs| then Ok(!stop) else Eval(lib, cs[n], e)
    ensures n < |cs| ==> Eval(lib, cs[n], e) != Ok(!stop)
    decreases |cs|
  {
    hide Eval;
    n := 0;
    if cs != [] && Eval(lib, cs[0], e) == Ok(!stop) {
      n := UntilDecides(lib, cs[1..], e, stop);
      n := n + 1;
    }
  }

  /** AND holds exactly when all its conditions do. It fails, or errs, exactly when one fails, or errs with that error,
      and all before it hold. */
  lemma AndMeans(lib: Library, cs: seq<Condition>, e: Event.Event, error: Error)
    ensures Eval(lib, And(cs), e) == Ok(true) <==> AllAre(lib, cs, |cs|, e, true)
    ensures Eval(lib, And(cs), e) == Ok(false) <==>
        exists i :: 0 <= i < |cs| && AllAre(lib, cs, i, e, true) && Eval(lib, cs[i], e) == Ok(false)
    ensures Eval(lib, And(cs), e) == Err(error) <==>
        exists i :: 0 <= i < |cs| && AllAre(lib, cs, i, e, true) && Eval(lib, cs[i], e) == Err(error)
  {
    var n := UntilDecides(lib, cs, e, false);
    assert Eval(lib, And(cs), e) == EvalUntil(lib, cs, e, false);
    hide Eval, EvalUntil;
    FirstIsUnique(lib, cs, e, true, n);
  }

  /** OR fails exactly when all its conditions do; it holds, or errs, at the first that does after failing ones. */
  lemma OrMeans(lib: Library, cs: seq<Condition>, e: Event.Event, error: Error)
    ensures Eval(lib, Or(cs), e) == Ok(false) <==> AllAre(lib, cs, |cs|, e, false)
    ensures Eval(lib, Or(cs), e) == Ok(true) <==>
        exists i :: 0 <= i < |cs| && AllAre(lib, cs, i, e, false) && Eval(lib, cs[i], e) == Ok(true)
    ensures Eval(lib, Or(cs), e) == Err(error) <==>
        exists i :: 0 <= i < |cs| && AllAre(lib, cs, i, e, false) && Eval(lib, cs[i], e) == Err(error)
  {
    var n := UntilDecides(lib, cs, e, true);
    assert Eval(lib, Or(cs), e) == EvalUntil(lib, cs, e, true);
    hide Eval, EvalUntil;
    FirstIsUnique(lib, cs, e, false, n);
  }

  lemma FirstIsUnique(lib: Library, cs: seq<Condition>, e: Event.Event, b: bool, n: nat)
    requires n <= |cs| && AllAre(lib, cs, n, e, b) && (n < |cs| ==> Eval(lib, cs[n], e) != Ok(b))
    ensures forall i :: 0 <= i < |cs| && AllAre(lib, cs, i, e, b) && Eval(lib, cs[i], e) != Ok(b) ==> i == n
  {
    hide Eval;
  }

  /** Of a list of comparisons exactly those up to the deciding one are evaluated. */
  lemma {:induction false} VisitedIsPrefix(lib: Library, cs: seq<Condition>, e: Event.Event, stop: bool)
    returns (n: nat)
    requires forall i :: 0 <= i < |cs| ==> cs[i].Comparison?
    ensures n <= |cs| && VisitedUntil(lib, cs, e, stop) == cs[..n]
    ensures n < |cs| ==> n > 0 && Eval(lib, cs[n - 1], e) != Ok(!stop)
    ensures forall i :: 0 <= i < n - 1 ==> Eval(lib, cs[i], e) == Ok(!stop)
    decreases |cs|
  {
    hide Eval;
    n := 0;
    if cs != [] {
      assert Visited(lib, cs[0], e) == [cs[0]];
      if Eval(lib, cs[0], e) == Ok(!stop) {
        n := VisitedIsPrefix(lib, cs[1..], e, stop);
        assert cs[..n + 1] == [cs[0]] + cs[1..][..n];
      } else {
        assert cs[..1] == [cs[0]];
      }
      n := n + 1;
    }
  }

  // ----- lists -----

  /** A list entry as one writes it: a word, bare or in quotes, which inside a quoted value are escaped, with blanks
      around it. */
  datatype Entry = Entry(before: string, quote: Option<char>, escaped: bool, word: string, after: string)

  predicate Written(n: Entry) {
    && Blank(n.before) && Blank(n.after) && ',' !in n.before && ',' !in n.after
    && (n.quote == None || n.quote == Some('"') || n.quote == Some('\''))
    && n.word != "" && forall i :: 0 <= i < |n.word| ==> WordChar(n.word[i])
  }

  predicate WordChar(c: char) { !IsSpace(c) && !IsQuote(c) && c != ',' && c != '\\' }

  function Core(n: Entry): string {
    match n.quote
    case None => n.word
    case Some(q) => if n.escaped then ['\\', q] + n.word + ['\\', q] else [q] + n.word + [q]
  }

  function TextOf(n: Entry): string { n.before + Core(n) + n.after }

  function TextsOf(ns: seq<Entry>): (r: seq<string>)
    ensures |r| == |ns| && forall i :: 0 <= i < |ns| ==> r[i] == TextOf(ns[i])
  {
    seq(|ns|, i requires 0 <= i < |ns| => TextOf(ns[i]))
  }

  /** What does not occur is not replaced. */
  lemma {:induction false} Untouched(s: string, needle: string, with: string)
    requires needle != "" && forall i :: 0 <= i <= |s| ==> !(needle <= s[i..])
    ensures ReplaceAll(s, needle, with) == s
  {
    if |s| >= |needle| {
      assert s[0..] == s;
      forall i | 0 <= i <= |s[1..]| ensures !(needle <= s[1..][i..]) { assert s[1..][i..] == s[i + 1..]; }
      Untouched(s[1..], needle, with);
    }
  }

  /** Up to an occurrence that nothing before it can begin, the text stays; the rest is treated alike. */
  lemma {:induction false} Replaced(a: string, needle: string, b: string, with: string)
    requires needle != "" && needle[0] !in a
    ensures ReplaceAll(a + needle + b, needle, with) == a + with + ReplaceAll(b, needle, with)
    decreases |a|
  {
    var s := a + needle + b;
    if a == "" {
      assert s[|needle|..] == b && needle <= s && a + with == with;
    } else {
      assert s[1..] == a[1..] + needle + b && s[0] == a[0] && needle[0] != s[0];
      Replaced(a[1..], needle, b, with);
    }
  }

  lemma WordIsPlain(n: Entry)
    requires Written(n)
    ensures ',' !in n.word && '\\' !in n.word && !IsSpace(n.word[0]) && !IsSpace(n.word[|n.word| - 1])
    ensures !IsQuote(n.word[0])
  {
    assert WordChar(n.word[0]) && WordChar(n.word[|n.word| - 1]);
    forall i | 0 <= i < |n.word| ensures n.word[i] != ',' && n.word[i] != '\\' { assert WordChar(n.word[i]); }
  }

  /** Without backslashes nothing is replaced. */
  lemma NoBackslash(s: string, p: char)
    requires '\\' !in s
    ensures ReplaceAll(s, ['\\', p], [p]) == s
  {
    forall i | 0 <= i <= |s| ensures !(['\\', p] <= s[i..]) {
      if ['\\', p] <= s[i..] { BackslashIn(s, i, p); }
    }
    Untouched(s, ['\\', p], [p]);
  }

  lemma BackslashIn(s: string, i: nat, p: char)
    requires i <= |s| && ['\\', p] <= s[i..]
    ensures i + 1 < |s| && s[i] == '\\' && s[i + 1] == p
  {
    assert s[i..][0] == '\\' && s[i..][1] == p;
  }

  /** Escaped quotes around a word are unescaped, each kind by its own replacement. */
  lemma Unescaped(word: string, q: char, p: char)
    requires '\\' !in word && IsQuote(q) && IsQuote(p)
    ensures ReplaceAll(['\\', q] + word + ['\\', q], ['\\', p], [p])
         == if p == q then [q] + word + [q] else ['\\', q] + word + ['\\', q]
  {
    var needle, s := ['\\', p], ['\\', q] + word + ['\\', q];
    if p == q {
      Replaced("", needle, word + needle, [p]);
      Replaced(word, needle, "", [p]);
      assert "" + needle + (word + needle) == s && word + needle + "" == word + needle;
      assert "" + [p] + (word + [p] + "") == [q] + word + [q];
    } else {
      forall i | 0 <= i <= |s| ensures !(needle <= s[i..]) {
        if needle <= s[i..] { BackslashIn(s, i, p); }
      }
      Untouched(s, needle, [p]);
    }
  }

  lemma CoreUnescaped(n: Entry)
    requires Written(n)
    ensures var text := ReplaceAll(ReplaceAll(Core(n), "\\\"", "\""), "\\'", "'");
            text == match n.quote case None => n.word case Some(q) => [q] + n.word + [q]
  {
    WordIsPlain(n);
    assert "\\\"" == ['\\', '"'] && "\"" == ['"'] && "\\'" == ['\\', '\''] && "'" == ['\''];
    hide ReplaceAll, WordChar;
    match n.quote
    case None =>
      NoBackslash(n.word, '"');
      NoBackslash(n.word, '\'');
    case Some(q) =>
      NoBackslash([q] + n.word + [q], '"');
      NoBackslash([q] + n.word + [q], '\'');
      Unescaped(n.word, q, '"');
      Unescaped(n.word, q, '\'');
  }

  /** An entry stands for its word. */
  lemma EntryIsWord(n: Entry)
    requires Written(n)
    ensures ',' !in TextOf(n) && Trim(TextOf(n)) == Core(n) != "" && ListEntry(TextOf(n)) == n.word
  {
    var core := Core(n);
    WordIsPlain(n);
    CoreUnescaped(n);
    TrimPadded(n.before, core, n.after);
    if n.quote.Some? { assert ([n.quote.value] + n.word + [n.quote.value])[1..|n.word| + 1] == n.word; }
    hide Trim, ReplaceAll;
  }

  predicate AmongWords(ns: seq<Entry>, text: string) {
    exists i :: 0 <= i < |ns| && ns[i].word == text
  }

  lemma ListedMeans(ns: seq<Entry>, text: string)
    requires forall i :: 0 <= i < |ns| ==> Written(ns[i])
    ensures Listed(TextsOf(ns), text) <==> AmongWords(ns, text)
  {
    var parts := TextsOf(ns);
    forall i | 0 <= i < |ns| ensures Trim(parts[i]) != "" && ListEntry(parts[i]) == ns[i].word { EntryIsWord(ns[i]); }
    hide TextOf, Trim, ListEntry, Written;
    if Listed(parts, text) {
      var i :| 0 <= i < |parts| && Trim(parts[i]) != "" && ListEntry(parts[i]) == text;
      assert ns[i].word == text;
    }
    if i :| 0 <= i < |ns| && ns[i].word == text { assert ListEntry(parts[i]) == text; }
  }

  lemma TextsSplit(ns: seq<Entry>)
    requires ns != [] && forall i :: 0 <= i < |ns| ==> Written(ns[i])
    ensures Split(Join(TextsOf(ns), ","), ',') == TextsOf(ns)
  {
    forall i | 0 <= i < |ns| ensures ',' !in TextsOf(ns)[i] { EntryIsWord(ns[i]); }
    hide TextOf, Written;
    SplitJoin(TextsOf(ns), ',');
    assert "," == [','];
  }

  /** `in` holds exactly when the field's text is one of the words. */
  lemma InMeans(lib: Library, field: string, ns: seq<Entry>, e: Event.Event, v: Event.Value)
    requires field != "" && Event.GetField(e, field) == Some(v)
    requires ns != [] && forall i :: 0 <= i < |ns| ==> Written(ns[i])
    ensures Eval(lib, Comparison(field, In, Join(TextsOf(ns), ","), None), e) == Ok(AmongWords(ns, lib.format(v)))
  {
    hide Written, AmongWords, Listed, Split, Join, Event.GetField;
    TextsSplit(ns);
    ListedMeans(ns, lib.format(v));
  }
}
