/** The text steps of the script parser that are single regular-expression
    calls: cutting the script into paragraphs at the circled numerals,
    recognising a paragraph heading such as "① 留人（约3秒）", and the
    whitespace and quote clean-up of a segment's text. */
module ScriptText {
  import opened Wrappers
  import opened JsText

  /** The paragraph numbers ① … ⑩ (U+2460 … U+2469). */
  predicate IsCircledNumeral(c: char) { '①' <= c <= '⑩' }

  /** The first index at or after `from` that holds a circled numeral, or `|s|`. */
  function NextNumeral(s: string, from: nat): (j: nat)
    requires from <= |s|
    ensures from <= j <= |s|
    ensures j < |s| ==> IsCircledNumeral(s[j])
    ensures forall i :: from <= i < j ==> !IsCircledNumeral(s[i])
    decreases |s| - from
  {
    if from == |s| || IsCircledNumeral(s[from]) then from else NextNumeral(s, from + 1)
  }

  /** `s.split(/(?=[①②③④⑤⑥⑦⑧⑨⑩])/)`: the text cut right before every circled
      numeral except one at index 0; the empty text gives one empty piece. */
  function SplitBeforeNumerals(s: string): (r: seq<string>)
    ensures |r| >= 1
    decreases |s|
  {
    if |s| <= 1 then [s]
    else
      var j := NextNumeral(s, 1);
      if j == |s| then [s] else [s[..j]] + SplitBeforeNumerals(s[j..])
  }

  /** The concatenation of a list of strings. */
  function Concat(parts: seq<string>): string
  {
    if parts == [] then [] else parts[0] + Concat(parts[1..])
  }

  /** Splitting loses nothing, every piece but the first starts with a
      numeral, and no piece has a numeral anywhere else. */
  lemma {:induction false} SplitBeforeNumeralsShape(s: string)
    ensures var r := SplitBeforeNumerals(s);
      Concat(r) == s &&
      (forall k :: 1 <= k < |r| ==> r[k] != [] && IsCircledNumeral(r[k][0])) &&
      (forall k, i :: 0 <= k < |r| && 1 <= i < |r[k]| ==> !IsCircledNumeral(r[k][i]))
    decreases |s|
  {
    var r := SplitBeforeNumerals(s);
    if |s| > 1 {
      var j := NextNumeral(s, 1);
      if j < |s| {
        var t := s[j..];
        SplitBeforeNumeralsShape(t);
        var rt := SplitBeforeNumerals(t);
        assert r == [s[..j]] + rt;
        assert r[1..] == rt;
        assert s == s[..j] + t;
        assert t[0] == s[j];
        forall k | 1 <= k < |r| ensures r[k] != [] && IsCircledNumeral(r[k][0]) {
          if k == 1 {
            assert rt[0] == t[..|rt[0]|] by { SplitPrefix(t); }
          }
        }
      }
    }
  }

  /** The first piece is a prefix of the text and is non-empty when the
      text is. */
  lemma SplitPrefix(s: string)
    ensures var r := SplitBeforeNumerals(s);
      |r[0]| <= |s| && r[0] == s[..|r[0]|] && (s != [] ==> r[0] != [])
  {
  }

  /** `.map(p => p.trim())`. */
  function Trims(ps: seq<string>): (r: seq<string>)
    ensures |r| == |ps| && forall k :: 0 <= k < |ps| ==> r[k] == Trim(ps[k])
  {
    seq(|ps|, k requires 0 <= k < |ps| => Trim(ps[k]))
  }

  /** `.filter(p => p.length > 0)`. */
  function NonEmpty(qs: seq<string>): (r: seq<string>)
    ensures |r| <= |qs|
    ensures forall k :: 0 <= k < |r| ==> r[k] != [] && r[k] in qs
  {
    if qs == [] then []
    else
      var rest := NonEmpty(qs[1..]);
      assert forall x :: x in qs[1..] ==> x in qs;
      (if qs[0] == [] then [] else [qs[0]]) + rest
  }

  /** `.map(p => p.trim()).filter(p => p.length > 0)`. */
  function TrimNonEmpty(ps: seq<string>): (r: seq<string>)
    ensures forall k :: 0 <= k < |r| ==> r[k] != [] && Trimmed(r[k])
    ensures |r| <= |ps|
  {
    var qs := Trims(ps);
    var r := NonEmpty(qs);
    assert forall k :: 0 <= k < |r| ==> Trimmed(r[k]) by {
      forall k | 0 <= k < |r| ensures Trimmed(r[k]) {
        var j :| 0 <= j < |qs| && qs[j] == r[k];
      }
    }
    r
  }

  /** The paragraphs of a script, in order. */
  function Paragraphs(text: string): seq<string>
  {
    TrimNonEmpty(SplitBeforeNumerals(text))
  }

  /** The filter of one item keeps it exactly when it is non-empty. */
  lemma NonEmptySingle(x: string)
    ensures NonEmpty([x]) == if x == [] then [] else [x]
  {
    assert [x][1..] == [];
  }

  /** The filter keeps the order of the items: filtering a concatenation
      concatenates the filtered parts. */
  lemma {:induction false} NonEmptyAppend(a: seq<string>, b: seq<string>)
    ensures NonEmpty(a + b) == NonEmpty(a) + NonEmpty(b)
    decreases |a|
  {
    if a == [] {
      assert a + b == b;
    } else {
      assert (a + b)[0] == a[0] && (a + b)[1..] == a[1..] + b;
      NonEmptyAppend(a[1..], b);
    }
  }

  lemma TrimsAppend(a: seq<string>, b: seq<string>)
    ensures Trims(a + b) == Trims(a) + Trims(b)
  {
  }

  /** One piece gives its trimmed text, unless that is empty. */
  lemma TrimNonEmptySingle(p: string)
    ensures TrimNonEmpty([p]) == if Trim(p) == [] then [] else [Trim(p)]
  {
    assert Trims([p]) == [Trim(p)];
    NonEmptySingle(Trim(p));
  }

  /** Trimming and filtering keep the order of the pieces. */
  lemma TrimNonEmptyAppend(a: seq<string>, b: seq<string>)
    ensures TrimNonEmpty(a + b) == TrimNonEmpty(a) + TrimNonEmpty(b)
  {
    TrimsAppend(a, b);
    NonEmptyAppend(Trims(a), Trims(b));
  }

  /** A text made of whitespace only has no paragraph. */
  lemma {:induction false} TrimNonEmptyBlank(ps: seq<string>)
    requires forall k :: 0 <= k < |ps| ==> Trim(ps[k]) == []
    ensures TrimNonEmpty(ps) == []
  {
    NonEmptyBlank(Trims(ps));
  }

  lemma {:induction false} NonEmptyBlank(qs: seq<string>)
    requires forall k :: 0 <= k < |qs| ==> qs[k] == []
    ensures NonEmpty(qs) == []
  {
    if qs != [] { NonEmptyBlank(qs[1..]); }
  }

  lemma ParagraphsOfBlank(text: string)
    requires AllWhitespace(text)
    ensures Paragraphs(text) == []
  {
    var r := SplitBeforeNumerals(text);
    SplitBeforeNumeralsShape(text);
    forall k | 0 <= k < |r| ensures AllWhitespace(r[k]) {
      forall i | 0 <= i < |r[k]| ensures IsWhitespace(r[k][i]) { ConcatContains(r, k, i); }
    }
    forall k | 0 <= k < |r| ensures Trim(r[k]) == [] { TrimShape(r[k]); }
    TrimNonEmptyBlank(r);
  }

  /** A text with a character other than whitespace has a paragraph. */
  lemma ParagraphsOfNonBlank(text: string, i: nat)
    requires i < |text| && !IsWhitespace(text[i])
    ensures Paragraphs(text) != []
  {
    var r := SplitBeforeNumerals(text);
    SplitBeforeNumeralsShape(text);
    var k, j := ConcatLocate(r, i);
    TrimShape(r[k]);
    assert !AllWhitespace(r[k]);
    TrimNonEmptyKeeps(r, k);
  }

  /** A piece that does not trim to nothing survives the filter. */
  lemma {:induction false} TrimNonEmptyKeeps(ps: seq<string>, k: nat)
    requires k < |ps| && Trim(ps[k]) != []
    ensures TrimNonEmpty(ps) != []
  {
    NonEmptyKeeps(Trims(ps), k);
  }

  lemma {:induction false} NonEmptyKeeps(qs: seq<string>, k: nat)
    requires k < |qs| && qs[k] != []
    ensures NonEmpty(qs) != []
  {
    if qs[0] == [] {
      assert qs[1..][k - 1] == qs[k];
      NonEmptyKeeps(qs[1..], k - 1);
    }
  }

  lemma {:induction false} ConcatLocate(parts: seq<string>, i: nat) returns (k: nat, j: nat)
    requires i < |Concat(parts)|
    ensures k < |parts| && j < |parts[k]| && parts[k][j] == Concat(parts)[i]
  {
    if i < |parts[0]| {
      k, j := 0, i;
    } else {
      var k', j' := ConcatLocate(parts[1..], i - |parts[0]|);
      k, j := k' + 1, j';
    }
  }

  /** A character of a piece is a character of the concatenation. */
  lemma {:induction false} ConcatContains(parts: seq<string>, k: nat, i: nat)
    requires k < |parts| && i < |parts[k]|
    ensures parts[k][i] in Concat(parts)
  {
    var c := Concat(parts);
    if k == 0 {
      assert c[i] == parts[0][i];
    } else {
      ConcatContains(parts[1..], k - 1, i);
      assert parts[1..][k - 1] == parts[k];
      var j :| 0 <= j < |Concat(parts[1..])| && Concat(parts[1..])[j] == parts[k][i];
      assert c[|parts[0]| + j] == parts[k][i];
    }
  }

  // ---------------------------------------------------------------------
  // The working text and the heading

  /** Leading run of `"` and whitespace. */
  function LeadingQuoteSpace(s: string): (n: nat)
    ensures n <= |s|
    ensures forall i :: 0 <= i < n ==> s[i] == '"' || IsWhitespace(s[i])
    ensures n == |s| || (s[n] != '"' && !IsWhitespace(s[n]))
  {
    if s == [] || (s[0] != '"' && !IsWhitespace(s[0])) then 0
    else
      var n := LeadingQuoteSpace(s[1..]);
      assert forall i :: 1 <= i < n + 1 ==> s[i] == s[1..][i - 1];
      n + 1
  }

  /** `para.trim().replace(/^["\s]+/, '')`. */
  function WorkingText(para: string): (w: string)
    ensures w == [] || (w[0] != '"' && !IsWhitespace(w[0]))
  {
    var t := Trim(para);
    t[LeadingQuoteSpace(t)..]
  }

  predicate IsOpenParen(c: char) { c == '（' || c == '(' }
  predicate IsCloseParen(c: char) { c == '）' || c == ')' }

  function NextOpenParen(s: string, from: nat): (j: nat)
    requires from <= |s|
    ensures from <= j <= |s|
    ensures j < |s| ==> IsOpenParen(s[j])
    ensures forall i :: from <= i < j ==> !IsOpenParen(s[i])
    decreases |s| - from
  {
    if from == |s| || IsOpenParen(s[from]) then from else NextOpenParen(s, from + 1)
  }

  function NextCloseParen(s: string, from: nat): (j: nat)
    requires from <= |s|
    ensures from <= j <= |s|
    ensures j < |s| ==> IsCloseParen(s[j])
    ensures forall i :: from <= i < j ==> !IsCloseParen(s[i])
    decreases |s| - from
  {
    if from == |s| || IsCloseParen(s[from]) then from else NextCloseParen(s, from + 1)
  }

  /** The length of the match of `^[①-⑩]\s*[^（(]*[（(][^）)]*[）)]` in `w`, if
      there is one. */
  function HeadingEnd(w: string): (r: Option<nat>)
    ensures r.Some? ==> 3 <= r.value <= |w|
  {
    if w == [] || !IsCircledNumeral(w[0]) then None
    else
      var o := NextOpenParen(w, 1);
      if o == |w| then None
      else
        var q := NextCloseParen(w, o + 1);
        if q == |w| then None else Some(q + 1)
  }

  /** `w[..e]` is a word of the heading pattern whose opening parenthesis
      is at `o`: a numeral; then whitespace and other characters without
      an opening parenthesis (`\s*[^（(]*`); the parenthesis; characters
      without a closing parenthesis; the closing parenthesis. */
  predicate HeadingForm(w: string, o: nat, e: nat) {
    1 <= o < e <= |w| && IsCircledNumeral(w[0]) &&
    (forall i :: 1 <= i < o ==> !IsOpenParen(w[i])) && IsOpenParen(w[o]) &&
    (forall i :: o < i < e - 1 ==> !IsCloseParen(w[i])) && IsCloseParen(w[e - 1])
  }

  /** The pattern matches exactly when `HeadingEnd` finds a heading, and the
      match it finds is the only prefix of that form. */
  lemma HeadingEndSound(w: string)
    requires HeadingEnd(w).Some?
    ensures HeadingForm(w, NextOpenParen(w, 1), HeadingEnd(w).value)
  {
  }

  lemma HeadingEndComplete(w: string, o: nat, e: nat)
    requires HeadingForm(w, o, e)
    ensures HeadingEnd(w) == Some(e)
  {
    var o' := NextOpenParen(w, 1);
    assert o' == o;
    var q := NextCloseParen(w, o + 1);
    assert q == e - 1;
  }

  /** The section name and the body of a paragraph whose index is `index`. */
  function SectionAndBody(w: string, index: nat): (r: (string, string))
  {
    match HeadingEnd(w)
    case Some(e) => (Trim(w[..e]), Trim(w[e..]))
    case None => ("段落 " + NatToString(index + 1), w)
  }

  /** `stripStructurePrefix`: the heading and the whitespace after it
      removed, then trimmed. */
  function StripStructurePrefix(text: string): (r: string)
    ensures Trimmed(r)
  {
    match HeadingEnd(text)
    case Some(e) =>
      var rest := text[e..];
      Trim(rest[LeadingWhitespace(rest)..])
    case None => Trim(text)
  }

  /** On a paragraph's working text, whose heading there is, this is the body
      the parser takes. */
  lemma StripStructurePrefixIsBody(w: string, index: nat)
    requires HeadingEnd(w).Some?
    ensures StripStructurePrefix(w) == SectionAndBody(w, index).1
  {
    var e := HeadingEnd(w).value;
    var rest := w[e..];
    TrimDropLeading(rest);
  }

  /** Dropping the leading whitespace does not change the trimmed text. */
  lemma TrimDropLeading(s: string)
    ensures Trim(s[LeadingWhitespace(s)..]) == Trim(s)
  {
    var n := LeadingWhitespace(s);
    var t := s[n..];
    assert LeadingWhitespace(t) == 0;
    assert t[0..] == t;
  }

  // ---------------------------------------------------------------------
  // Cleaning a segment's text

  /** `s.replace(/\s+/g, ' ')`: every run of whitespace becomes one space. */
  function CollapseWhitespace(s: string): (r: string)
    ensures forall x :: x in r ==> (x in s && !IsWhitespace(x)) || x == ' '
    ensures s != [] && !IsWhitespace(s[0]) ==> r != [] && r[0] == s[0]
    ensures s != [] && IsWhitespace(s[0]) ==> r != [] && r[0] == ' '
    decreases |s|
  {
    if s == [] then []
    else if IsWhitespace(s[0]) then
      var n := LeadingWhitespace(s);
      [' '] + CollapseWhitespace(s[n..])
    else [s[0]] + CollapseWhitespace(s[1..])
  }

  lemma {:induction false} CollapseWhitespaceSingleSpaced(s: string)
    ensures SingleSpaced(CollapseWhitespace(s))
    decreases |s|
  {
    if s != [] {
      if IsWhitespace(s[0]) {
        var t := s[LeadingWhitespace(s)..];
        CollapseWhitespaceSingleSpaced(t);
        SingleSpacedCons(' ', CollapseWhitespace(t));
      } else {
        CollapseWhitespaceSingleSpaced(s[1..]);
        SingleSpacedCons(s[0], CollapseWhitespace(s[1..]));
      }
    }
  }

  /** A character put before a single-spaced text keeps it single-spaced
      unless it is whitespace other than a space, or whitespace before
      whitespace. */
  lemma SingleSpacedCons(h: char, rt: string)
    requires SingleSpaced(rt)
    requires IsWhitespace(h) ==> h == ' ' && (rt != [] ==> !IsWhitespace(rt[0]))
    ensures SingleSpaced([h] + rt)
  {
    var r := [h] + rt;
    forall i | 0 <= i < |r| && IsWhitespace(r[i])
      ensures r[i] == ' ' && (i + 1 < |r| ==> !IsWhitespace(r[i + 1]))
    {
      if i == 0 {
        if 1 < |r| { assert r[1] == rt[0]; }
      } else {
        assert r[i] == rt[i - 1];
        if i + 1 < |r| { assert r[i + 1] == rt[i]; }
      }
    }
  }

  /** The quote characters of the clean-up class: “ ” ‘ ’ " ' and the backquote. */
  predicate IsQuote(c: char) {
    c == '“' || c == '”' || c == '‘' || c == '’' || c == '"' || c == '\'' || c == '`'
  }

  function LeadingQuotes(s: string): (n: nat)
    ensures n <= |s|
    ensures forall i :: 0 <= i < n ==> IsQuote(s[i])
    ensures n == |s| || !IsQuote(s[n])
  {
    if s == [] || !IsQuote(s[0]) then 0
    else
      var n := LeadingQuotes(s[1..]);
      assert forall i :: 1 <= i < n + 1 ==> s[i] == s[1..][i - 1];
      n + 1
  }

  function TrailingQuotes(s: string): (n: nat)
    ensures n <= |s|
    ensures forall i :: |s| - n <= i < |s| ==> IsQuote(s[i])
    ensures n == |s| || !IsQuote(s[|s| - n - 1])
  {
    if s == [] || !IsQuote(s[|s| - 1]) then 0
    else
      var n := TrailingQuotes(s[..|s| - 1]);
      n + 1
  }

  /** `s.replace(/^[“”‘’"'`]+/, '').replace(/[“”‘’"'`]+$/, '')`. */
  function StripQuotes(a: string): (r: string)
    ensures LeadingQuotes(a) + |r| <= |a|
    ensures r == a[LeadingQuotes(a)..LeadingQuotes(a) + |r|]
    ensures forall i :: LeadingQuotes(a) + |r| <= i < |a| ==> IsQuote(a[i])
    ensures r == [] || (!IsQuote(r[0]) && !IsQuote(r[|r| - 1]))
  {
    var b := a[LeadingQuotes(a)..];
    b[..|b| - TrailingQuotes(b)]
  }

  /** The last step of `parseScriptText`'s clean-up: whitespace runs
      collapsed, trimmed, one run of quotes stripped at each end, trimmed
      again. */
  function CleanSegmentText(s: string): (r: string)
    ensures Trimmed(r)
  {
    Trim(StripQuotes(Trim(CollapseWhitespace(s))))
  }

  lemma StripQuotesSingleSpaced(a: string)
    requires SingleSpaced(a)
    ensures SingleSpaced(StripQuotes(a))
  {
    SingleSpacedSlice(a, LeadingQuotes(a), LeadingQuotes(a) + |StripQuotes(a)|);
  }

  lemma StripQuotesChars(a: string)
    ensures forall x :: x in StripQuotes(a) ==> x in a
  {
    SliceChars(a, LeadingQuotes(a), LeadingQuotes(a) + |StripQuotes(a)|);
  }

  /** The clean text is single-spaced. */
  lemma CleanSegmentTextSingleSpaced(s: string)
    ensures SingleSpaced(CleanSegmentText(s))
  {
    var col := CollapseWhitespace(s);
    CollapseWhitespaceSingleSpaced(s);
    TrimSingleSpaced(col);
    StripQuotesSingleSpaced(Trim(col));
    TrimSingleSpaced(StripQuotes(Trim(col)));
  }

  /** The clean text brings in no character other than a space. */
  lemma CleanSegmentTextChars(s: string)
    ensures forall x :: x in CleanSegmentText(s) ==> (x in s && !IsWhitespace(x)) || x == ' '
  {
    var col := CollapseWhitespace(s);
    TrimChars(col);
    StripQuotesChars(Trim(col));
    TrimChars(StripQuotes(Trim(col)));
  }

  /** A text with a quote, a space, a quote and a word keeps its second
      quote: only one run of quotes is stripped before the final trim. */
  lemma CleanKeepsInnerQuote()
    ensures CleanSegmentText("“ “好") == "“好"
  {
    var s := "“ “好";
    CollapseExample();
    TrimExample();
    assert StripQuotes(s) == " “好" by { QuotesExample(); }
    TrimExample2();
  }

  lemma CollapseExample()
    ensures CollapseWhitespace("“ “好") == "“ “好"
  {
    var s := "“ “好";
    assert s[1..] == " “好";
    assert LeadingWhitespace(" “好") == 1;
    assert " “好"[1..] == "“好";
    assert "“好"[1..] == "好";
    assert "好"[1..] == [];
    assert CollapseWhitespace("好") == "好";
    assert CollapseWhitespace("“好") == "“好";
  }

  lemma TrimExample()
    ensures Trim("“ “好") == "“ “好"
  {
    TrimOfTrimmed("“ “好");
  }

  lemma QuotesExample()
    ensures StripQuotes("“ “好") == " “好"
  {
    var s := "“ “好";
    assert LeadingQuotes(s[1..]) == 0;
    assert LeadingQuotes(s) == 1;
    var b := s[1..];
    assert TrailingQuotes(b) == 0;
    assert b[..|b|] == b;
  }

  lemma TrimExample2()
    ensures Trim(" “好") == "“好"
  {
    var b := " “好";
    assert LeadingWhitespace(b[1..]) == 0;
    assert LeadingWhitespace(b) == 1;
    assert b[1..] == "“好";
    assert TrailingWhitespace(b[1..]) == 0;
    assert b[1..][..|b[1..]|] == "“好";
  }

  /** `cleanRawText`: empty for an empty text; otherwise trimmed, one run of
      `"`, `'` or backquote stripped at each end, trimmed again. */
  predicate IsAsciiQuote(c: char) { c == '"' || c == '\'' || c == '`' }

  function LeadingAsciiQuotes(s: string): (n: nat)
    ensures n <= |s|
    ensures forall i :: 0 <= i < n ==> IsAsciiQuote(s[i])
    ensures n == |s| || !IsAsciiQuote(s[n])
  {
    if s == [] || !IsAsciiQuote(s[0]) then 0
    else
      var n := LeadingAsciiQuotes(s[1..]);
      assert forall i :: 1 <= i < n + 1 ==> s[i] == s[1..][i - 1];
      n + 1
  }

  function TrailingAsciiQuotes(s: string): (n: nat)
    ensures n <= |s|
    ensures forall i :: |s| - n <= i < |s| ==> IsAsciiQuote(s[i])
    ensures n == |s| || !IsAsciiQuote(s[|s| - n - 1])
  {
    if s == [] || !IsAsciiQuote(s[|s| - 1]) then 0
    else TrailingAsciiQuotes(s[..|s| - 1]) + 1
  }

  /** `t.replace(/^["'`]+/, '').replace(/["'`]+$/, '')`. */
  function StripAsciiQuotes(t: string): (r: string)
    ensures LeadingAsciiQuotes(t) + |r| <= |t|
    ensures r == t[LeadingAsciiQuotes(t)..LeadingAsciiQuotes(t) + |r|]
    ensures forall i :: LeadingAsciiQuotes(t) + |r| <= i < |t| ==> IsAsciiQuote(t[i])
    ensures r == [] || (!IsAsciiQuote(r[0]) && !IsAsciiQuote(r[|r| - 1]))
  {
    var a := t[LeadingAsciiQuotes(t)..];
    a[..|a| - TrailingAsciiQuotes(a)]
  }

  function CleanRawText(text: Option<string>): (r: string)
    ensures Trimmed(r)
    ensures text.None? || text.value == [] ==> r == []
  {
    match text
    case None => []
    case Some(s) => Trim(StripAsciiQuotes(Trim(s)))
  }

  /** As in the segment clean-up, only one run of quotes is stripped at
      each end before the final trim, so a quote behind a space stays. */
  lemma CleanRawKeepsInnerQuote()
    ensures CleanRawText(Some("\" \"a")) == "\"a"
  {
    var s := "\" \"a";
    assert LeadingWhitespace(s) == 0 && TrailingWhitespace(s) == 0;
    assert s[0..] == s && s[..|s|] == s;
    assert Trim(s) == s;
    assert LeadingAsciiQuotes(s[1..]) == 0;
    assert LeadingAsciiQuotes(s) == 1;
    var b := s[1..];
    assert TrailingAsciiQuotes(b) == 0;
    assert b[..|b|] == b;
    assert StripAsciiQuotes(s) == " \"a";
    TrimDropOne(" \"a");
  }

  lemma TrimDropOne(b: string)
    requires b == " \"a"
    ensures Trim(b) == "\"a"
  {
    assert LeadingWhitespace(b[1..]) == 0;
    assert LeadingWhitespace(b) == 1;
    assert b[1..] == "\"a";
    assert TrailingWhitespace(b[1..]) == 0;
    assert b[1..][..|b[1..]|] == "\"a";
  }

  /** The cleaned text brings in no character. */
  lemma CleanRawTextChars(s: string)
    ensures forall x :: x in CleanRawText(Some(s)) ==> x in s
  {
    TrimChars(s);
    var t := Trim(s);
    SliceChars(t, LeadingAsciiQuotes(t), LeadingAsciiQuotes(t) + |StripAsciiQuotes(t)|);
    TrimChars(StripAsciiQuotes(t));
  }

  /** Cleaning a text that is already trimmed and has no quote at either
      end leaves it as it is. */
  lemma CleanRawTextClean(s: string)
    requires Trimmed(s) && (s == [] || (!IsAsciiQuote(s[0]) && !IsAsciiQuote(s[|s| - 1])))
    ensures CleanRawText(Some(s)) == s
  {
    TrimOfTrimmed(s);
    assert s[0..] == s;
    assert s[..|s|] == s;
    assert StripAsciiQuotes(s) == s;
  }
}
