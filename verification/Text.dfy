/** Text operations of the Go standard library that the modelled code calls. */
module Text {

  datatype Option<+T> = None | Some(value: T)

  /** The characters that `strings.TrimSpace` removes: Unicode white space. */
  predicate IsSpace(c: char) {
    || '\t' <= c <= '\r' || c == ' '
    || c == '\U{85}' || c == '\U{A0}' || c == '\U{1680}'
    || '\U{2000}' <= c <= '\U{200A}'
    || c == '\U{2028}' || c == '\U{2029}' || c == '\U{202F}' || c == '\U{205F}' || c == '\U{3000}'
  }

  predicate Blank(s: string) {
    forall i :: 0 <= i < |s| ==> IsSpace(s[i])
  }

  /** No white space at either end. */
  predicate Trimmed(s: string) {
    s != "" ==> !IsSpace(s[0]) && !IsSpace(s[|s| - 1])
  }

  function TrimLeft(s: string): (r: string)
    ensures |r| <= |s|
  {
    if s != "" && IsSpace(s[0]) then TrimLeft(s[1..]) else s
  }

  function TrimRight(s: string): (r: string)
    ensures |r| <= |s|
  {
    if s != "" && IsSpace(s[|s| - 1]) then TrimRight(s[..|s| - 1]) else s
  }

  function Trim(s: string): (r: string)
    ensures |r| <= |s|
  {
    TrimRight(TrimLeft(s))
  }

  lemma {:induction false} TrimLeftDrops(s: string)
    ensures var r := TrimLeft(s); r == s[|s| - |r|..] && Blank(s[..|s| - |r|]) && (r != "" ==> !IsSpace(r[0]))
  {
    hide IsSpace;
    if s != "" && IsSpace(s[0]) {
      var rest, r := s[1..], TrimLeft(s);
      TrimLeftDrops(rest);
      var n := |rest| - |r|;
      assert r == TrimLeft(rest) == rest[n..] == s[n + 1..];
      assert s[..n + 1] == [s[0]] + rest[..n];
    } else {
      assert s[0..] == s && s[..0] == "";
    }
  }

  lemma {:induction false} TrimRightDrops(s: string)
    ensures var r := TrimRight(s); r == s[..|r|] && Blank(s[|r|..]) && (r != "" ==> !IsSpace(r[|r| - 1]))
  {
    hide IsSpace;
    if s != "" && IsSpace(s[|s| - 1]) {
      var shorter, r := s[..|s| - 1], TrimRight(s);
      TrimRightDrops(shorter);
      assert r == TrimRight(shorter) == shorter[..|r|] == s[..|r|];
      assert s[|r|..] == shorter[|r|..] + [s[|s| - 1]];
    } else {
      assert s[..|s|] == s && s[|s|..] == "";
    }
  }

  /** What is trimmed away is white space, and what is left has none at either end. */
  lemma TrimSplits(s: string) returns (front: nat, back: nat)
    ensures front <= back <= |s| && Trim(s) == s[front..back]
    ensures Blank(s[..front]) && Blank(s[back..]) && Trimmed(Trim(s))
  {
    hide IsSpace, TrimLeft, TrimRight;
    var left, r := TrimLeft(s), Trim(s);
    TrimLeftDrops(s);
    TrimRightDrops(left);
    front := |s| - |left|;
    back := front + |r|;
    assert left == s[front..] && r == left[..|r|] == s[front..back];
    assert s[back..] == left[|r|..];
    assert r != "" ==> r[0] == left[0];
  }

  lemma TrimIsTrimmed(s: string)
    ensures Trimmed(Trim(s))
  {
    var _, _ := TrimSplits(s);
  }

  lemma TrimOfTrimmed(s: string)
    requires Trimmed(s)
    ensures Trim(s) == s
  {
  }

  lemma {:induction false} TrimLeftBlank(before: string, t: string)
    requires Blank(before) && t != "" && !IsSpace(t[0])
    ensures TrimLeft(before + t) == t
    decreases |before|
  {
    if before == "" {
      assert before + t == t;
    } else {
      assert (before + t)[1..] == before[1..] + t;
      TrimLeftBlank(before[1..], t);
    }
  }

  lemma {:induction false} TrimRightBlank(t: string, after: string)
    requires Blank(after) && t != "" && !IsSpace(t[|t| - 1])
    ensures TrimRight(t + after) == t
    decreases |after|
  {
    if after == "" {
      assert t + after == t;
    } else {
      assert (t + after)[..|t + after| - 1] == t + after[..|after| - 1];
      TrimRightBlank(t, after[..|after| - 1]);
    }
  }

  lemma {:induction false} BlankTrims(s: string)
    requires Blank(s)
    ensures TrimLeft(s) == ""
  {
    if s != "" { BlankTrims(s[1..]); }
  }

  /** Blanks around a trimmed text go. */
  lemma TrimPadded(before: string, t: string, after: string)
    requires Blank(before) && Blank(after) && t != "" && Trimmed(t)
    ensures Trim(before + t + after) == t
  {
    TrimLeftBlank(before, t + after);
    TrimRightBlank(t, after);
    assert before + t + after == before + (t + after);
  }

  predicate Contains(s: string, part: string) {
    exists i :: 0 <= i <= |s| && part <= s[i..]
  }

  /** `strings.Split` with a one-character separator. */
  function Split(s: string, sep: char): (r: seq<string>)
    ensures |r| >= 1
    ensures forall i :: 0 <= i < |r| ==> sep !in r[i]
  {
    if s == "" then [""]
    else
      var rest := Split(s[1..], sep);
      if s[0] == sep then [""] + rest else [[s[0]] + rest[0]] + rest[1..]
  }

  function Join(parts: seq<string>, sep: string): string {
    if parts == [] then ""
    else if |parts| == 1 then parts[0]
    else parts[0] + sep + Join(parts[1..], sep)
  }

  lemma {:induction false} JoinSplit(s: string, sep: char)
    ensures Join(Split(s, sep), [sep]) == s
  {
    if s != "" {
      JoinSplit(s[1..], sep);
      var rest := Split(s[1..], sep);
      if s[0] == sep {
        assert ([""] + rest)[1..] == rest;
        assert "" + [sep] + s[1..] == s;
      } else {
        var whole := [[s[0]] + rest[0]] + rest[1..];
        assert whole[1..] == rest[1..];
        if |rest| == 1 {
          assert [s[0]] + rest[0] == s;
        } else {
          assert [s[0]] + rest[0] + [sep] + Join(rest[1..], [sep]) == [s[0]] + s[1..];
        }
      }
    }
  }

  lemma {:induction false} SplitJoin(parts: seq<string>, sep: char)
    requires parts != []
    requires forall i :: 0 <= i < |parts| ==> sep !in parts[i]
    ensures Split(Join(parts, [sep]), sep) == parts
    decreases |parts|, |parts[0]|
  {
    var text := Join(parts, [sep]);
    if parts[0] == "" {
      if |parts| > 1 {
        assert text[0] == sep && text[1..] == Join(parts[1..], [sep]);
        SplitJoin(parts[1..], sep);
        assert [""] + parts[1..] == parts;
      }
    } else {
      var shorter := [parts[0][1..]] + parts[1..];
      assert text[0] == parts[0][0];
      assert shorter[1..] == parts[1..];
      assert text[1..] == Join(shorter, [sep]);
      SplitJoin(shorter, sep);
      assert [text[0]] + shorter[0] == parts[0];
      assert [[text[0]] + shorter[0]] + shorter[1..] == parts;
    }
  }

  /** `strings.ReplaceAll` for a non-empty `needle`. */
  function ReplaceAll(s: string, needle: string, with: string): string
    requires needle != ""
  {
    if |s| < |needle| then s
    else if needle <= s then with + ReplaceAll(s[|needle|..], needle, with)
    else [s[0]] + ReplaceAll(s[1..], needle, with)
  }
}
