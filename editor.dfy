/** The editor's pure text helpers (the same code appears in both editor
    components): the rendering of marks as bracketed glosses for Word,
    clearing all marks, the text handed to speech synthesis, and splicing a
    mark into the text at the selection. */
module EditorText {
  import opened Wrappers
  import opened JsText
  import opened Delimited

  // ---------------------------------------------------------------------
  // Suggestions: the pattern `\(建议改为：.*?\)`

  /** The opening of a rewrite suggestion the assistant appends after a
      flagged word: an ASCII parenthesis, `建议改为` and a full-width colon. */
  const SuggestionPrefix := "(建议改为："

  /** The first index at or after `from` holding `)` or a line terminator
      (where the lazy `.*?` has to stop), or `|s|`. */
  function SuggestionStop(s: string, from: nat): (q: nat)
    requires from <= |s|
    ensures from <= q <= |s|
    ensures q < |s| ==> s[q] == ')' || IsLineTerminator(s[q])
    ensures forall i :: from <= i < q ==> s[i] != ')' && !IsLineTerminator(s[i])
    decreases |s| - from
  {
    if from == |s| || s[from] == ')' || IsLineTerminator(s[from]) then from
    else SuggestionStop(s, from + 1)
  }

  /** The end of the suggestion that starts `s`, if one does: the prefix,
      then characters on the same line up to the first `)`. */
  function SuggestionAt(s: string): (r: Option<nat>)
    ensures r.Some? ==>
      |SuggestionPrefix| < r.value <= |s| && s[..|SuggestionPrefix|] == SuggestionPrefix &&
      s[r.value - 1] == ')' &&
      forall i :: |SuggestionPrefix| <= i < r.value - 1 ==> s[i] != ')' && !IsLineTerminator(s[i])
    ensures s != [] && s[0] != '(' ==> r.None?
  {
    if |SuggestionPrefix| <= |s| && s[..|SuggestionPrefix|] == SuggestionPrefix then
      var q := SuggestionStop(s, |SuggestionPrefix|);
      if q < |s| && s[q] == ')' then Some(q + 1) else None
    else None
  }

  /** `s.replace(/\(建议改为：.*?\)/g, '')`. */
  function DeleteSuggestions(s: string): (r: string)
    ensures forall x :: x in r ==> x in s
    decreases |s|
  {
    if s == [] then []
    else
      match SuggestionAt(s)
      case Some(e) =>
        var rest := DeleteSuggestions(s[e..]);
        assert forall x :: x in rest ==> x in s by {
          forall x | x in s[e..] ensures x in s { }
        }
        rest
      case None =>
        var rest := DeleteSuggestions(s[1..]);
        assert forall x :: x in rest ==> x in s by {
          forall x | x in s[1..] ensures x in s { }
        }
        [s[0]] + rest
  }

  /** Text before any `(` is kept as it is. */
  lemma {:induction false} DeleteSuggestionsPlainPrefix(a: string, t: string)
    requires '(' !in a
    ensures DeleteSuggestions(a + t) == a + DeleteSuggestions(t)
    decreases |a|
  {
    if a == [] {
      assert a + t == t;
    } else {
      var s := a + t;
      assert s[0] == a[0] && s[1..] == a[1..] + t;
      DeleteSuggestionsPlainPrefix(a[1..], t);
      assert [a[0]] + a[1..] == a;
    }
  }

  /** A text without `(` holds no suggestion. */
  lemma DeleteSuggestionsPlain(s: string)
    requires '(' !in s
    ensures DeleteSuggestions(s) == s
  {
    DeleteSuggestionsPlainPrefix(s, []);
    assert s + [] == s;
  }

  /** A complete suggestion is deleted, up to its first `)`. */
  lemma DeleteSuggestionsDeletes(a: string, x: string, b: string)
    requires '(' !in a
    requires forall i :: 0 <= i < |x| ==> x[i] != ')' && !IsLineTerminator(x[i])
    ensures DeleteSuggestions(a + (SuggestionPrefix + x + ")" + b)) == a + DeleteSuggestions(b)
  {
    DeleteSuggestionsPlainPrefix(a, SuggestionPrefix + x + ")" + b);
    var s := SuggestionPrefix + x + ")" + b;
    var n := |SuggestionPrefix|;
    SuggestionParts(SuggestionPrefix, x, b);
    assert SuggestionStop(s, n) == n + |x|;
    assert SuggestionAt(s) == Some(n + |x| + 1);
  }

  /** Where the parts of `p + x + ")" + b` lie. */
  lemma SuggestionParts(p: string, x: string, b: string)
    ensures var s := p + x + ")" + b;
      |s| == |p| + |x| + 1 + |b| && s[..|p|] == p &&
      (forall i :: |p| <= i < |p| + |x| ==> s[i] == x[i - |p|]) &&
      s[|p| + |x|] == ')' && s[|p| + |x| + 1..] == b
  {
  }

  // ---------------------------------------------------------------------
  // Line and blank clean-up: `\n{3,}` and `[ \t]+`

  /** The number of newlines that start `s`. */
  function NewlineRun(s: string): (n: nat)
    ensures n <= |s|
    ensures forall i :: 0 <= i < n ==> s[i] == '\n'
    ensures n < |s| ==> s[n] != '\n'
  {
    if s == [] || s[0] != '\n' then 0 else 1 + NewlineRun(s[1..])
  }

  /** `s.replace(/\n{3,}/g, '\n\n')`. */
  function CapNewlines(s: string): (r: string)
    ensures forall x :: x in r ==> x in s
    decreases |s|
  {
    if s == [] then []
    else
      var n := NewlineRun(s);
      if n >= 3 then
        var rest := CapNewlines(s[n..]);
        assert forall x :: x in rest ==> x in s by {
          forall x | x in s[n..] ensures x in s { }
        }
        "\n\n" + rest
      else
        var rest := CapNewlines(s[1..]);
        assert forall x :: x in rest ==> x in s by {
          forall x | x in s[1..] ensures x in s { }
        }
        [s[0]] + rest
  }

  predicate NoTripleNewline(s: string) {
    forall i :: 0 <= i && i + 2 < |s| ==> !(s[i] == '\n' && s[i + 1] == '\n' && s[i + 2] == '\n')
  }

  /** Capping keeps a run of one or two newlines at the start and shortens
      a longer one to two. */
  lemma {:induction false} CapNewlinesRun(s: string)
    ensures NewlineRun(CapNewlines(s)) == if NewlineRun(s) >= 3 then 2 else NewlineRun(s)
    decreases |s|
  {
    if s != [] {
      var n := NewlineRun(s);
      if n >= 3 {
        CapNewlinesRun(s[n..]);
        var rest := CapNewlines(s[n..]);
        var r := "\n\n" + rest;
        assert r[2..] == rest;
        assert rest == [] || rest[0] != '\n';
        assert NewlineRun(r[1..]) == 1 + NewlineRun(r[2..]);
      } else if s[0] == '\n' {
        assert NewlineRun(s) == 1 + NewlineRun(s[1..]);
        CapNewlinesRun(s[1..]);
        var r := [s[0]] + CapNewlines(s[1..]);
        assert r[1..] == CapNewlines(s[1..]);
      }
    }
  }

  /** After capping, no three newlines are adjacent. */
  lemma {:induction false} CapNewlinesNoTriple(s: string)
    ensures NoTripleNewline(CapNewlines(s))
    decreases |s|
  {
    if s != [] {
      var n := NewlineRun(s);
      if n >= 3 {
        var rest := CapNewlines(s[n..]);
        CapNewlinesNoTriple(s[n..]);
        CapNewlinesRun(s[n..]);
        NoTripleAfterTwo(rest);
      } else {
        var rest := CapNewlines(s[1..]);
        CapNewlinesNoTriple(s[1..]);
        CapNewlinesRun(s[1..]);
        if s[0] == '\n' {
          assert NewlineRun(s) == 1 + NewlineRun(s[1..]);
        }
        NoTripleAfterOne(s[0], rest);
      }
    }
  }

  lemma NoTripleAfterTwo(rest: string)
    requires NoTripleNewline(rest) && NewlineRun(rest) == 0
    ensures NoTripleNewline("\n\n" + rest)
  {
    var r := "\n\n" + rest;
    forall i | 0 <= i && i + 2 < |r|
      ensures !(r[i] == '\n' && r[i + 1] == '\n' && r[i + 2] == '\n')
    {
      if i >= 2 {
        assert r[i] == rest[i - 2] && r[i + 1] == rest[i - 1] && r[i + 2] == rest[i];
      } else {
        assert r[2] == rest[0];
      }
    }
  }

  lemma NoTripleAfterOne(c: char, rest: string)
    requires NoTripleNewline(rest)
    requires c == '\n' ==> NewlineRun(rest) < 2
    ensures NoTripleNewline([c] + rest)
  {
    var r := [c] + rest;
    forall i | 0 <= i && i + 2 < |r|
      ensures !(r[i] == '\n' && r[i + 1] == '\n' && r[i + 2] == '\n')
    {
      if i >= 1 {
        assert r[i] == rest[i - 1] && r[i + 1] == rest[i] && r[i + 2] == rest[i + 1];
      } else if c == '\n' && rest[0] == '\n' {
        assert NewlineRun(rest) == 1 + NewlineRun(rest[1..]);
        assert rest[1] != '\n';
      }
    }
  }

  /** The characters of the class `[ \t]`. */
  predicate IsBlank(c: char) { c == ' ' || c == '\t' }

  function BlankRun(s: string): (n: nat)
    ensures n <= |s|
    ensures forall i :: 0 <= i < n ==> IsBlank(s[i])
    ensures n < |s| ==> !IsBlank(s[n])
  {
    if s == [] || !IsBlank(s[0]) then 0 else 1 + BlankRun(s[1..])
  }

  /** `s.replace(/[ \t]+/g, ' ')`. */
  function CollapseBlanks(s: string): (r: string)
    ensures forall x :: x in r ==> (x in s && x != '\t') || x == ' '
    decreases |s|
  {
    if s == [] then []
    else
      var n := BlankRun(s);
      if n > 0 then
        var rest := CollapseBlanks(s[n..]);
        assert forall x :: x in rest ==> (x in s && x != '\t') || x == ' ' by {
          forall x | x in s[n..] ensures x in s { }
        }
        " " + rest
      else
        var rest := CollapseBlanks(s[1..]);
        assert forall x :: x in rest ==> (x in s && x != '\t') || x == ' ' by {
          forall x | x in s[1..] ensures x in s { }
        }
        [s[0]] + rest
  }

  /** No two characters of `[ \t]` are adjacent. */
  predicate NoDoubleBlank(s: string) {
    forall i :: 0 <= i && i + 1 < |s| ==> !(IsBlank(s[i]) && IsBlank(s[i + 1]))
  }

  /** The collapsed text starts with a blank exactly when the text does,
      and with the same character otherwise. */
  lemma CollapseBlanksHead(s: string)
    ensures CollapseBlanks(s) == [] <==> s == []
    ensures s != [] ==> (IsBlank(CollapseBlanks(s)[0]) <==> IsBlank(s[0]))
    ensures s != [] && !IsBlank(s[0]) ==> CollapseBlanks(s) == [s[0]] + CollapseBlanks(s[1..])
  {
  }

  /** The collapsed text has no two adjacent blanks. */
  lemma {:induction false} CollapseBlanksSingle(s: string)
    ensures NoDoubleBlank(CollapseBlanks(s))
    decreases |s|
  {
    if s != [] {
      var n := BlankRun(s);
      if n > 0 {
        var rest := CollapseBlanks(s[n..]);
        CollapseBlanksSingle(s[n..]);
        CollapseBlanksHead(s[n..]);
        var r := " " + rest;
        forall i | 0 <= i && i + 1 < |r| ensures !(IsBlank(r[i]) && IsBlank(r[i + 1])) {
          if i >= 1 { assert r[i] == rest[i - 1] && r[i + 1] == rest[i]; }
        }
      } else {
        var rest := CollapseBlanks(s[1..]);
        CollapseBlanksSingle(s[1..]);
        var r := [s[0]] + rest;
        forall i | 0 <= i && i + 1 < |r| ensures !(IsBlank(r[i]) && IsBlank(r[i + 1])) {
          if i >= 1 { assert r[i] == rest[i - 1] && r[i + 1] == rest[i]; }
        }
      }
    }
  }

  /** Collapsing blanks never joins newlines. */
  lemma {:induction false} CollapseBlanksNoTriple(s: string)
    requires NoTripleNewline(s)
    ensures NoTripleNewline(CollapseBlanks(s))
    decreases |s|
  {
    if s != [] {
      var n := BlankRun(s);
      var d := if n > 0 then n else 1;
      SliceKeepsClean(s, d, |s|);
      assert s[d..|s|] == s[d..];
      CollapseBlanksNoTriple(s[d..]);
      var rest := CollapseBlanks(s[d..]);
      var head: string := if n > 0 then " " else [s[0]];
      assert CollapseBlanks(s) == head + rest;
      if head[0] == '\n' {
        NoTripleAtHead(s);
      }
      NoTriplePrepend(head, rest);
    }
  }

  /** One character put before a text without triple newlines makes none
      unless it is a newline before two. */
  lemma NoTriplePrepend(head: string, rest: string)
    requires |head| == 1 && NoTripleNewline(rest)
    requires head[0] == '\n' ==> !(|rest| >= 2 && rest[0] == '\n' && rest[1] == '\n')
    ensures NoTripleNewline(head + rest)
  {
    var r := head + rest;
    forall i | 0 <= i && i + 2 < |r| ensures !(r[i] == '\n' && r[i + 1] == '\n' && r[i + 2] == '\n') {
      if i >= 1 {
        assert r[i] == rest[i - 1] && r[i + 1] == rest[i] && r[i + 2] == rest[i + 1];
      } else {
        assert r[0] == head[0] && r[1] == rest[0] && r[2] == rest[1];
      }
    }
  }

  /** A newline that starts the text is not followed by two more once the
      rest is collapsed. */
  lemma NoTripleAtHead(s: string)
    requires NoTripleNewline(s) && s != [] && s[0] == '\n'
    ensures var rest := CollapseBlanks(s[1..]);
      !(|rest| >= 2 && rest[0] == '\n' && rest[1] == '\n')
  {
    var t := s[1..];
    CollapseBlanksHead(t);
    if t != [] && t[0] == '\n' {
      var u := t[1..];
      CollapseBlanksHead(u);
      if u != [] {
        assert s[1] == '\n' && s[2] == u[0];
        assert u[0] != '\n';
      }
    }
  }

  /** Both clean-up properties hold of every slice. */
  lemma SliceKeepsClean(s: string, a: nat, b: nat)
    requires a <= b <= |s|
    ensures NoTripleNewline(s) ==> NoTripleNewline(s[a..b])
    ensures NoDoubleBlank(s) ==> NoDoubleBlank(s[a..b])
  {
    var u := s[a..b];
    assert forall i :: 0 <= i < |u| ==> u[i] == s[a + i];
  }

  // ---------------------------------------------------------------------
  // serializeForWord

  /** `serializeForWord(editorText)`: the marks rendered as glosses, then
      the layout cleaned up; an empty editor gives the empty text. */
  function SerializeForWord(editorText: string): (r: string)
  {
    if editorText == [] then [] else Layout(GlossText(editorText))
  }

  /** The mark rewrites, in this order: `|` becomes ` [短停] ` (so the `||`
      rule that follows finds nothing), `*x*` becomes `[x]`, `↑` and `↓`
      become ` [上扬]` and ` [收尾]`, and a flagged `【x】` becomes `x`. */
  function GlossText(editorText: string): string
  {
    var t1 := ReplaceChar(editorText, '|', " [短停] ");
    var t2 := ReplaceAll(t1, "||", "\n[长停]\n");
    var t3 := Rewrite(t2, 0, '*', '*', "[", "]");
    var t4 := ReplaceChar(t3, '↑', " [上扬]");
    var t5 := ReplaceChar(t4, '↓', " [收尾]");
    Rewrite(t5, 0, '【', '】', "", "")
  }

  /** The clean-up after the glosses: suggestions deleted, runs of three or
      more newlines cut to two, runs of spaces and tabs cut to one space,
      and the result trimmed. */
  function Layout(t: string): string
  {
    Trim(CollapseBlanks(CapNewlines(DeleteSuggestions(t))))
  }

  /** The `||` rule runs after every `|` is gone and never changes the text. */
  lemma LongPauseRuleInert(editorText: string)
    ensures var t1 := ReplaceChar(editorText, '|', " [短停] ");
      '|' !in t1 && ReplaceAll(t1, "||", "\n[长停]\n") == t1
  {
  }

  /** A character absent from the text and from the replacement stays
      absent. */
  lemma ReplaceCharKeepsAbsent(s: string, c: char, rep: string, d: char)
    requires d !in s && d !in rep
    ensures d !in ReplaceChar(s, c, rep)
  {
  }

  lemma RewriteKeepsAbsent(s: string, open: char, close: char, pre: string, post: string, d: char)
    requires d !in s && d !in pre && d !in post
    ensures d !in Rewrite(s, 0, open, close, pre, post)
  {
    RewriteChars(s, 0, open, close, pre, post);
    assert s[0..] == s;
  }

  /** No `|` survives the mark rewrites. */
  lemma GlossesHaveNoBar(editorText: string)
    ensures '|' !in GlossText(editorText)
  {
    var t1 := ReplaceChar(editorText, '|', " [短停] ");
    LongPauseRuleInert(editorText);
    RewriteKeepsAbsent(t1, '*', '*', "[", "]", '|');
    var t3 := Rewrite(t1, 0, '*', '*', "[", "]");
    ReplaceCharKeepsAbsent(t3, '↑', " [上扬]", '|');
    var t4 := ReplaceChar(t3, '↑', " [上扬]");
    ReplaceCharKeepsAbsent(t4, '↓', " [收尾]", '|');
    var t5 := ReplaceChar(t4, '↓', " [收尾]");
    RewriteKeepsAbsent(t5, '【', '】', "", "", '|');
  }

  /** The Word text is empty for an empty editor; otherwise it is trimmed,
      has no tab, no two adjacent spaces, no three adjacent newlines and no
      `|`. */
  lemma SerializeForWordClean(editorText: string)
    ensures var r := SerializeForWord(editorText);
      (editorText == [] ==> r == []) &&
      Trimmed(r) && NoDoubleBlank(r) && NoTripleNewline(r) && '\t' !in r && '|' !in r
  {
    if editorText != [] {
      var t6 := GlossText(editorText);
      var t7 := DeleteSuggestions(t6);
      GlossesHaveNoBar(editorText);
      var t8 := CapNewlines(t7);
      CapNewlinesNoTriple(t7);
      var t9 := CollapseBlanks(t8);
      CollapseBlanksNoTriple(t8);
      CollapseBlanksSingle(t8);
      var r := Trim(t9);
      assert r == SerializeForWord(editorText);
      var a := LeadingWhitespace(t9);
      SliceKeepsClean(t9, a, a + |r|);
      TrimChars(t9);
    }
  }

  /** Once the text is unmarked, the rewrites still to come change nothing. */
  lemma UnmarkedSteps(t: string)
    requires Unmarked(t)
    ensures ReplaceAll(t, "||", "\n[长停]\n") == t
    ensures Rewrite(t, 0, '*', '*', "[", "]") == t
    ensures ReplaceChar(t, '↑', " [上扬]") == t
    ensures ReplaceChar(t, '↓', " [收尾]") == t
    ensures Rewrite(t, 0, '【', '】', "", "") == t
  {
    UnmarkedAbsent(t);
    RewriteNoOpen(t, 0, '*', '*', "[", "]");
    RewriteNoOpen(t, 0, '【', '】', "", "");
    assert t[0..] == t;
  }

  lemma UnmarkedAbsent(t: string)
    requires Unmarked(t)
    ensures '|' !in t && '*' !in t && '↑' !in t && '↓' !in t && '【' !in t && '】' !in t
  {
    forall c | c in MarkChars ensures c !in t {
      assert forall i :: 0 <= i < |t| ==> t[i] != c;
    }
  }

  /** The glosses bring in no mark. */
  lemma GlossLiterals()
    ensures Unmarked(" [短停] ") && Unmarked(" [上扬]") && Unmarked(" [收尾]")
    ensures Unmarked("[") && Unmarked("]")
  {
  }

  /** A mark that is not `c` is absent from `a + [c] + b` for unmarked
      `a` and `b`. */
  lemma OtherMarkAbsent(a: string, c: char, b: string, d: char)
    requires Unmarked(a) && Unmarked(b) && d in MarkChars && d != c
    ensures d !in a + [c] + b
  {
    UnmarkedAbsent(a);
    UnmarkedAbsent(b);
  }

  /** A lone mark `c` between unmarked text is replaced by `rep`. */
  lemma ReplaceMarkBetween(a: string, c: char, b: string, rep: string)
    requires Unmarked(a) && Unmarked(b) && Unmarked(rep) && c in MarkChars
    ensures ReplaceChar(a + [c] + b, c, rep) == a + rep + b && Unmarked(a + rep + b)
  {
    assert c !in a && c !in b by {
      assert forall i :: 0 <= i < |a| ==> a[i] != c;
      assert forall i :: 0 <= i < |b| ==> b[i] != c;
    }
    ReplaceLoneChar(a, b, c, rep);
    UnmarkedJoin(a, rep, b);
  }

  /** The first match of a delimited pair between text without its
      delimiters is rewritten, and the rest is kept. */
  lemma DelimitedBetween(a: string, x: string, b: string, open: char, close: char, pre: string, post: string)
    requires open !in a && close !in x && open !in b && x != []
    ensures Rewrite(a + [open] + x + [close] + b, 0, open, close, pre, post) == a + (pre + x + post) + b
  {
    FirstMatchRewrite(a, x, b, open, close, pre, post);
    RewriteNoOpen(b, 0, open, close, pre, post);
    assert b[0..] == b;
  }

  lemma Regroup(a: string, p: string, x: string, q: string, b: string)
    ensures a + (p + x + q) + b == a + p + x + q + b
  {
  }

  lemma EmptySides(a: string, x: string, b: string)
    ensures a + [] + x + [] + b == a + x + b
  {
  }

  /** Between unmarked text, a bar becomes the short-pause gloss. */
  lemma GlossShortPause(a: string, b: string)
    requires Unmarked(a) && Unmarked(b)
    ensures GlossText(a + "|" + b) == a + " [短停] " + b
  {
    GlossLiterals();
    ReplaceMarkBetween(a, '|', b, " [短停] ");
    UnmarkedSteps(a + " [短停] " + b);
  }

  /** Between unmarked text, a stressed word `*x*` becomes `[x]`. */
  lemma GlossStress(a: string, x: string, b: string)
    requires Unmarked(a) && Unmarked(x) && Unmarked(b) && x != []
    ensures GlossText(a + "*" + x + "*" + b) == a + "[" + x + "]" + b
  {
    var s := a + "*" + x + "*" + b;
    var t := a + "[" + x + "]" + b;
    UnmarkedAbsent(a);
    UnmarkedAbsent(x);
    UnmarkedAbsent(b);
    assert '|' !in s;
    BarRulesInert(s);
    assert s == a + ['*'] + x + ['*'] + b;
    DelimitedBetween(a, x, b, '*', '*', "[", "]");
    Regroup(a, "[", x, "]", b);
    GlossLiterals();
    UnmarkedGlue3("[", x, "]");
    UnmarkedJoin(a, "[" + x + "]", b);
    UnmarkedSteps(t);
    GlossFrom(s, t, t, t, t);
  }

  /** The two bar rules leave a text without `|` as it is. */
  lemma BarRulesInert(s: string)
    requires '|' !in s
    ensures ReplaceAll(ReplaceChar(s, '|', " [短停] "), "||", "\n[长停]\n") == s
  {
  }

  /** The bar and stress rules leave a text without `|` and `*` as it is. */
  lemma EarlyRulesInert(s: string)
    requires '|' !in s && '*' !in s
    ensures Rewrite(ReplaceAll(ReplaceChar(s, '|', " [短停] "), "||", "\n[长停]\n"), 0, '*', '*', "[", "]") == s
  {
    BarRulesInert(s);
    RewriteNoOpen(s, 0, '*', '*', "[", "]");
    assert s[0..] == s;
  }

  lemma UnmarkedGlue3(p: string, x: string, q: string)
    requires Unmarked(p) && Unmarked(x) && Unmarked(q)
    ensures Unmarked(p + x + q)
  {
    UnmarkedJoin(p, x, q);
  }

  /** The mark rewrites, step by step. */
  lemma GlossFrom(s: string, t3: string, t4: string, t5: string, r: string)
    requires Rewrite(ReplaceAll(ReplaceChar(s, '|', " [短停] "), "||", "\n[长停]\n"), 0, '*', '*', "[", "]") == t3
    requires ReplaceChar(t3, '↑', " [上扬]") == t4
    requires ReplaceChar(t4, '↓', " [收尾]") == t5
    requires Rewrite(t5, 0, '【', '】', "", "") == r
    ensures GlossText(s) == r
  {
  }

  /** Between unmarked text, the rising mark becomes its gloss. */
  lemma GlossRise(a: string, b: string)
    requires Unmarked(a) && Unmarked(b)
    ensures GlossText(a + "↑" + b) == a + " [上扬]" + b
  {
    var s := a + "↑" + b;
    var t := a + " [上扬]" + b;
    OtherMarkAbsent(a, '↑', b, '|');
    OtherMarkAbsent(a, '↑', b, '*');
    EarlyRulesInert(s);
    GlossLiterals();
    ReplaceMarkBetween(a, '↑', b, " [上扬]");
    UnmarkedSteps(t);
    GlossFrom(s, s, t, t, t);
  }

  /** Between unmarked text, the falling mark becomes its gloss. */
  lemma GlossFall(a: string, b: string)
    requires Unmarked(a) && Unmarked(b)
    ensures GlossText(a + "↓" + b) == a + " [收尾]" + b
  {
    var s := a + "↓" + b;
    var t := a + " [收尾]" + b;
    OtherMarkAbsent(a, '↓', b, '|');
    OtherMarkAbsent(a, '↓', b, '*');
    OtherMarkAbsent(a, '↓', b, '↑');
    EarlyRulesInert(s);
    GlossLiterals();
    ReplaceMarkBetween(a, '↓', b, " [收尾]");
    UnmarkedSteps(t);
    GlossFrom(s, s, s, t, t);
  }

  /** Between unmarked text, a flagged passage `【x】` loses its brackets. */
  lemma GlossFlag(a: string, x: string, b: string)
    requires Unmarked(a) && Unmarked(x) && Unmarked(b) && x != []
    ensures GlossText(a + "【" + x + "】" + b) == a + x + b
  {
    var s := a + "【" + x + "】" + b;
    UnmarkedAbsent(a);
    UnmarkedAbsent(x);
    UnmarkedAbsent(b);
    assert '|' !in s && '*' !in s && '↑' !in s && '↓' !in s;
    EarlyRulesInert(s);
    assert s == a + ['【'] + x + ['】'] + b;
    DelimitedBetween(a, x, b, '【', '】', "", "");
    Regroup(a, "", x, "", b);
    assert a + "" + x + "" + b == a + x + b by { EmptySides(a, x, b); }
    GlossFrom(s, s, s, s, a + x + b);
  }

  /** A text the clean-up has nothing to do on: no `(`, no tab, no two
      adjacent blanks, no three adjacent newlines, and trimmed. */
  predicate LayoutClean(t: string) {
    '(' !in t && '\t' !in t && NoDoubleBlank(t) && NoTripleNewline(t) && Trimmed(t)
  }

  /** The clean-up leaves such a text as it is. */
  lemma LayoutKeepsClean(t: string)
    requires LayoutClean(t)
    ensures Layout(t) == t
  {
    DeleteSuggestionsPlain(t);
    CapNewlinesPlain(t);
    CollapseBlanksPlain(t);
    TrimOfTrimmed(t);
  }

  /** Capping changes nothing without three adjacent newlines. */
  lemma {:induction false} CapNewlinesPlain(s: string)
    requires NoTripleNewline(s)
    ensures CapNewlines(s) == s
    decreases |s|
  {
    if s != [] {
      if |s| >= 3 {
        assert !(s[0] == '\n' && s[1] == '\n' && s[2] == '\n');
      }
      assert NewlineRun(s) < 3;
      SliceKeepsClean(s, 1, |s|);
      assert s[1..|s|] == s[1..];
      CapNewlinesPlain(s[1..]);
      assert [s[0]] + s[1..] == s;
    }
  }

  /** Collapsing changes nothing without tabs or two adjacent blanks. */
  lemma {:induction false} CollapseBlanksPlain(s: string)
    requires NoDoubleBlank(s) && '\t' !in s
    ensures CollapseBlanks(s) == s
    decreases |s|
  {
    if s != [] {
      SliceKeepsClean(s, 1, |s|);
      assert s[1..|s|] == s[1..];
      assert '\t' !in s[1..] by {
        forall x | x in s[1..] ensures x in s { }
      }
      CollapseBlanksPlain(s[1..]);
      var n := BlankRun(s);
      if n > 0 {
        assert s[0] == ' ' by { assert s[0] in s; }
        if |s| >= 2 {
          assert !IsBlank(s[1]);
        }
        assert n == 1;
      }
      assert [s[0]] + s[1..] == s;
    }
  }

  /** For a non-empty stressed word between unmarked text that the
      clean-up leaves alone, the Word text shows the word in brackets. */
  lemma SerializeStress(a: string, x: string, b: string)
    requires Unmarked(a) && Unmarked(x) && Unmarked(b) && x != []
    requires LayoutClean(a + "[" + x + "]" + b)
    ensures SerializeForWord(a + "*" + x + "*" + b) == a + "[" + x + "]" + b
  {
    GlossStress(a, x, b);
    LayoutKeepsClean(a + "[" + x + "]" + b);
  }

  /** A bar between unmarked text that the clean-up leaves alone is
      exported as the short-pause gloss. */
  lemma SerializeShortPause(a: string, b: string)
    requires Unmarked(a) && Unmarked(b)
    requires LayoutClean(a + " [短停] " + b)
    ensures SerializeForWord(a + "|" + b) == a + " [短停] " + b
  {
    GlossShortPause(a, b);
    LayoutKeepsClean(a + " [短停] " + b);
  }

  /** `a*b*c` is exported as `a[b]c`. */
  lemma SerializeExample()
    ensures SerializeForWord("a*b*c") == "a[b]c"
  {
    var t := "a[b]c";
    assert "a" + "[" + "b" + "]" + "c" == t;
    assert "a" + "*" + "b" + "*" + "c" == "a*b*c";
    assert NoDoubleBlank(t) && NoTripleNewline(t);
    assert !IsWhitespace(t[0]) && !IsWhitespace(t[|t| - 1]);
    SerializeStress("a", "b", "c");
  }

  // ---------------------------------------------------------------------
  // clearMarks

  /** The characters `clearMarks` and the speech clean-up take out. */
  const MarkChars: set<char> := {'|', '*', '↑', '↓', '【', '】'}

  /** No mark character anywhere in the text. */
  predicate Unmarked(s: string) {
    forall i :: 0 <= i < |s| ==> s[i] !in MarkChars
  }

  /** `text.replace(/[|*↑↓【】]/g, '')` followed by the deletion of
      suggestions. */
  function ClearMarks(text: string): (r: string)
    ensures Unmarked(r)
  {
    var kept := DeleteChars(text, MarkChars);
    var r := DeleteSuggestions(kept);
    assert forall i :: 0 <= i < |r| ==> r[i] in kept;
    r
  }

  /** Each mark character is dropped wherever it is. */
  lemma ClearMarksDrops(a: string, c: char, b: string)
    requires c in MarkChars
    ensures ClearMarks(a + [c] + b) == ClearMarks(a + b)
  {
    DeleteCharsDrop(a, c, b, MarkChars);
  }

  /** Text without marks and without `(` is left as it is. */
  lemma ClearMarksKeepsPlain(text: string)
    requires Unmarked(text)
    requires '(' !in text
    ensures ClearMarks(text) == text
  {
    DeleteSuggestionsPlain(text);
  }

  // ---------------------------------------------------------------------
  // The text given to speech synthesis

  /** The pause rewrites of the speech clean-up: `||` becomes `。`, then
      `|` becomes `，`. */
  function SpeechPauses(text: string): (r: string)
    ensures forall x :: x in r ==> (x in text && x != '|') || x == '。' || x == '，'
  {
    ReplaceChar(ReplaceAll(text, "||", "。"), '|', "，")
  }

  /** The deletions of the speech clean-up: `*`, `↑`, `↓`, `【` and `】`,
      one after the other. */
  function SpeechDeletions(t: string): (r: string)
    ensures forall x :: x in r ==> x in t && x != '*' && x != '↑' && x != '↓' && x != '【' && x != '】'
  {
    var t3 := DeleteChars(t, {'*'});
    var t4 := DeleteChars(t3, {'↑'});
    var t5 := DeleteChars(t4, {'↓'});
    var t6 := DeleteChars(t5, {'【'});
    DeleteChars(t6, {'】'})
  }

  /** The text handed to speech synthesis; an empty text is not spoken at
      all. */
  function SpeechText(text: string): (r: Option<string>)
    ensures r.None? <==> text == []
    ensures r.Some? ==> Unmarked(r.value)
  {
    if text == [] then None
    else
      var r := SpeechDeletions(SpeechPauses(text));
      assert Unmarked(r) by {
        forall i | 0 <= i < |r| ensures r[i] !in MarkChars {
          assert r[i] in r;
        }
      }
      Some(r)
  }

  /** The deletions leave text without marks alone. */
  lemma SpeechDeletionsInert(t: string)
    requires Unmarked(t)
    ensures SpeechDeletions(t) == t
  {
  }

  /** A double bar between bar-free text is read as a full stop. */
  lemma PausesLong(a: string, b: string)
    requires '|' !in a && '|' !in b
    ensures SpeechPauses(a + "||" + b) == a + "。" + b
  {
    ReplaceAllPlainPrefix(a, "||" + b, "||", "。");
    ReplaceAllAtStart(b, "||", "。");
    assert ReplaceAll(b, "||", "。") == b;
    assert a + "||" + b == a + ("||" + b);
    var t1 := a + "。" + b;
    assert ReplaceAll(a + "||" + b, "||", "。") == t1;
    assert '|' !in t1;
    assert ReplaceChar(t1, '|', "，") == t1;
  }

  /** The `||` rule leaves a lone bar alone. */
  lemma LoneBarKept(a: string, b: string)
    requires '|' !in a && '|' !in b
    ensures ReplaceAll(a + "|" + b, "||", "。") == a + "|" + b
  {
    var s := "|" + b;
    ReplaceAllPlainPrefix(a, s, "||", "。");
    if |s| >= 2 {
      assert s[1] == b[0];
      assert s[..2] != "||";
      assert s[1..] == b;
    }
    assert ReplaceAll(s, "||", "。") == s;
    assert a + "|" + b == a + s;
  }

  lemma LoneBarComma(a: string, b: string)
    requires '|' !in a && '|' !in b
    ensures ReplaceChar(a + "|" + b, '|', "，") == a + "，" + b
  {
    ReplaceLoneChar(a, b, '|', "，");
  }

  lemma ReplaceLoneChar(a: string, b: string, c: char, rep: string)
    requires c !in a && c !in b
    ensures ReplaceChar(a + [c] + b, c, rep) == a + rep + b
  {
    assert ReplaceChar([c], c, rep) == rep + ReplaceChar([c][1..], c, rep);
    assert [c][1..] == [];
    ReplaceCharAppend(a, [c], c, rep);
    ReplaceCharAppend(a + [c], b, c, rep);
  }

  /** A single bar between bar-free text is read as a comma. */
  lemma PausesShort(a: string, b: string)
    requires '|' !in a && '|' !in b
    ensures SpeechPauses(a + "|" + b) == a + "，" + b
  {
    LoneBarKept(a, b);
    LoneBarComma(a, b);
  }

  lemma UnmarkedJoin(a: string, m: string, b: string)
    requires Unmarked(a)
    requires Unmarked(b)
    requires Unmarked(m)
    ensures Unmarked(a + m + b)
    ensures '|' !in a && '|' !in b
  {
    assert forall x :: x in a ==> x !in MarkChars;
    assert forall x :: x in b ==> x !in MarkChars;
    var s := a + m + b;
    forall i | 0 <= i < |s| ensures s[i] !in MarkChars {
      if i < |a| { assert s[i] == a[i]; }
      else if i < |a| + |m| { assert s[i] == m[i - |a|]; }
      else { assert s[i] == b[i - |a| - |m|]; }
    }
  }

  /** A double bar between unmarked text is read as a full stop. */
  lemma SpeechLongPause(a: string, b: string)
    requires Unmarked(a)
    requires Unmarked(b)
    ensures SpeechText(a + "||" + b) == Some(a + "。" + b)
  {
    UnmarkedJoin(a, "。", b);
    PausesLong(a, b);
    SpeechDeletionsInert(a + "。" + b);
  }

  /** A single bar between unmarked text is read as a comma. */
  lemma SpeechShortPause(a: string, b: string)
    requires Unmarked(a)
    requires Unmarked(b)
    ensures SpeechText(a + "|" + b) == Some(a + "，" + b)
  {
    UnmarkedJoin(a, "，", b);
    PausesShort(a, b);
    SpeechDeletionsInert(a + "，" + b);
  }

  // ---------------------------------------------------------------------
  // insertMark

  /** The toolbar buttons that insert marks. */
  datatype MarkTool = Stress | ShortPause | LongPause | Up | Down

  /** `sel.slice(1, -1)`. */
  function SliceInner(sel: string): (r: string)
    ensures |sel| >= 2 ==> r == sel[1..|sel| - 1]
    ensures |sel| < 2 ==> r == []
  {
    if |sel| < 2 then [] else sel[1..|sel| - 1]
  }

  /** The text that replaces the selection, and the caret's offset from the
      selection's start (negative for a selection that is a lone `*`). */
  function Replacement(sel: string, tool: MarkTool): (string, int)
  {
    match tool
    case Stress =>
      if sel == [] then ("**", 1)
      else if sel[0] == '*' then (SliceInner(sel), |sel| - 2)
      else ("*" + sel + "*", |sel| + 2)
    case ShortPause => (" | ", 3)
    case LongPause => (" ||\n", 4)
    case Up => ("↑", 1)
    case Down => ("↓", 1)
  }

  /** `insertMark(type)` on the text with the selection `[s, e)`: the new
      text and the new caret. */
  function InsertMark(txt: string, s: nat, e: nat, tool: MarkTool): (r: (string, int))
    requires s <= e <= |txt|
    ensures txt[..s] <= r.0
    ensures |txt[..s]| + |txt[e..]| <= |r.0| && r.0[|r.0| - |txt[e..]|..] == txt[e..]
  {
    var (middle, offset) := Replacement(txt[s..e], tool);
    (txt[..s] + middle + txt[e..], s + offset)
  }

  /** The pause and intonation buttons put their mark in place of the
      selection and the caret right after it. */
  lemma InsertPlainMark(txt: string, s: nat, e: nat, tool: MarkTool)
    requires s <= e <= |txt| && tool != Stress
    ensures var r := InsertMark(txt, s, e, tool);
      var mark := match tool
        case ShortPause => " | " case LongPause => " ||\n" case Up => "↑" case Down => "↓" case Stress => "";
      r.0 == txt[..s] + mark + txt[e..] && r.1 == s + |mark|
  {
  }

  /** The stress button wraps a selection in `*`, unwraps one that starts
      with `*`, and inserts `**` with the caret between them when nothing is
      selected; the caret lands after the new text, except for a lone `*`. */
  lemma InsertStress(txt: string, s: nat, e: nat)
    requires s <= e <= |txt|
    ensures var r := InsertMark(txt, s, e, Stress);
      var sel := txt[s..e];
      (sel == [] ==> r.0 == txt[..s] + "**" + txt[e..] && r.1 == s + 1) &&
      (sel != [] && sel[0] != '*' ==> r.0 == txt[..s] + "*" + sel + "*" + txt[e..] && r.1 == s + |sel| + 2) &&
      (|sel| >= 2 && sel[0] == '*' ==> r.0 == txt[..s] + sel[1..|sel| - 1] + txt[e..] && r.1 == s + |sel| - 2) &&
      (sel == "*" ==> r.0 == txt[..s] + txt[e..] && r.1 == s - 1)
  {
  }

  /** Stressing a selection and then stressing the wrapped text again gives
      back the original text and selection end. */
  lemma StressRoundTrip(txt: string, s: nat, e: nat)
    requires s < e <= |txt| && txt[s] != '*'
    ensures var r := InsertMark(txt, s, e, Stress);
      r.1 == e + 2 && r.1 <= |r.0| &&
      InsertMark(r.0, s, r.1, Stress) == (txt, e)
  {
    var sel := txt[s..e];
    assert sel[0] == txt[s];
    var w := "*" + sel + "*";
    var t := txt[..s] + w + txt[e..];
    assert t[..s] == txt[..s];
    assert t[s..s + |w|] == w;
    assert t[s + |w|..] == txt[e..];
    assert w[1..|w| - 1] == sel;
    assert txt[..s] + sel + txt[e..] == txt;
  }
}
