/** What `parseScriptText` promises about the segments it exports: their
    ids, their cleaned text, the marks it records and where it puts them. */
module ParserProperties {
  import opened Wrappers
  import opened JsText
  import opened Delimited
  import opened Marks
  import opened ScriptText
  import opened ScriptParser

  /** The body the segment's text and marks come from. */
  function Body(para: string, index: nat): string
  {
    SectionAndBody(WorkingText(para), index).1
  }

  // ---------------------------------------------------------------------
  // Identity and section

  lemma SegmentIdentity(para: string, index: nat)
    ensures ParseSegment(para, index).id == "s" + NatToString(index + 1)
    ensures ParseSegment(para, index).role == "narrator"
  {
  }

  /** Two segments of one document never share an id. */
  lemma SegmentIdsDistinct(paras: seq<string>, i: nat, j: nat)
    requires i < |paras| && j < |paras| && i != j
    ensures Segments(paras)[i].id != Segments(paras)[j].id
  {
    SegmentAt(paras, i);
    SegmentAt(paras, j);
    SegmentIdentity(paras[i], i);
    SegmentIdentity(paras[j], j);
    IdsDiffer(i, j);
  }

  lemma IdsDiffer(i: nat, j: nat)
    requires i != j
    ensures "s" + NatToString(i + 1) != "s" + NatToString(j + 1)
  {
    var a, b := NatToString(i + 1), NatToString(j + 1);
    if "s" + a == "s" + b {
      assert a == ("s" + a)[1..];
      assert b == ("s" + b)[1..];
      NatToStringInjective(i + 1, j + 1);
    }
  }

  /** Every segment has a section name: the trimmed heading when there is
      one, `段落 N` otherwise. */
  lemma SectionNonEmpty(para: string, index: nat)
    ensures ParseSegment(para, index).section != []
    ensures HeadingEnd(WorkingText(para)).None? ==>
      ParseSegment(para, index).section == "段落 " + NatToString(index + 1)
  {
    var w := WorkingText(para);
    match HeadingEnd(w) {
      case Some(e) =>
        var h := w[..e];
        assert h[0] == w[0];
        assert !AllWhitespace(h);
        TrimShape(h);
      case None =>
    }
  }

  // ---------------------------------------------------------------------
  // The document

  lemma {:induction false} TotalDurationLower(segs: seq<Segment>)
    requires forall i :: 0 <= i < |segs| ==> segs[i].durationHint >= 5
    ensures TotalDuration(segs) >= 5 * |segs|
    decreases |segs|
  {
    if segs != [] {
      TotalDurationLower(segs[..|segs| - 1]);
    }
  }

  /** One segment per paragraph, segment `i` made from paragraph `i`; the
      metadata counts them and adds up their duration hints, which is at
      least five seconds per segment. */
  lemma DocumentShape(text: string, createdAt: string)
    ensures var doc := ParseScript(text, createdAt);
      var paras := Paragraphs(text);
      |doc.segments| == |paras| == doc.metadata.segmentCount &&
      (forall i :: 0 <= i < |paras| ==> doc.segments[i] == ParseSegment(paras[i], i)) &&
      doc.metadata.totalDurationHint == TotalDuration(doc.segments) &&
      doc.metadata.totalDurationHint >= 5 * |doc.segments| &&
      doc.createdAt == createdAt
  {
    var paras := Paragraphs(text);
    var segs := Segments(paras);
    forall i | 0 <= i < |paras| ensures segs[i] == ParseSegment(paras[i], i) {
      SegmentAt(paras, i);
    }
    forall i | 0 <= i < |segs| ensures segs[i].durationHint >= 5 {
      SegmentAt(paras, i);
      DurationCovers(paras[i], i);
    }
    TotalDurationLower(segs);
  }

  /** A text of whitespace only gives a document without segments. */
  lemma BlankDocument(text: string, createdAt: string)
    requires AllWhitespace(text)
    ensures ParseScript(text, createdAt).segments == []
    ensures ParseScript(text, createdAt).metadata == Metadata(0, 0, "zh-CN")
  {
    ParagraphsOfBlank(text);
  }

  // ---------------------------------------------------------------------
  // The cleaned text

  /** `rawText` is trimmed, has single spaces only and none of the control
      symbols; its only whitespace is the plain space. */
  lemma RawTextClean(para: string, index: nat)
    ensures var r := ParseSegment(para, index).rawText;
      Trimmed(r) && SingleSpaced(r) &&
      '|' !in r && '↑' !in r && '↓' !in r &&
      forall x :: x in r ==> !IsWhitespace(x) || x == ' '
  {
    var body := Body(para, index);
    var st := StrippedText(body);
    CleanSegmentTextChars(st);
    CleanSegmentTextSingleSpaced(st);
  }

  /** The duration hint allows five Han characters per second and is never
      below five seconds. */
  lemma DurationCovers(para: string, index: nat)
    ensures var seg := ParseSegment(para, index);
      seg.durationHint >= 5 && CountHan(seg.rawText) <= 5 * seg.durationHint
  {
  }

  // ---------------------------------------------------------------------
  // The marks

  /** A list all of whose marks are of kind `k`. */
  lemma {:induction false} CountAllOfKind(ms: seq<Mark>, k: MarkKind, other: MarkKind)
    requires forall i :: 0 <= i < |ms| ==> ms[i].kind == k
    requires other != k
    ensures CountKind(ms, k) == |ms| && CountKind(ms, other) == 0
    decreases |ms|
  {
    if ms != [] {
      CountAllOfKind(ms[..|ms| - 1], k, other);
    }
  }

  lemma ControlMarksShape(kind: MarkKind, ps: seq<int>, i: nat)
    requires i < |ps|
    ensures ControlMarks(kind, ps)[i] == Mark(kind, ps[i], None)
    decreases |ps|
  {
    if i > 0 { ControlMarksShape(kind, ps[1..], i - 1); }
  }

  lemma ControlMarksKind(kind: MarkKind, ps: seq<int>, other: MarkKind)
    requires other != kind
    ensures CountKind(ControlMarks(kind, ps), kind) == |ps|
    ensures CountKind(ControlMarks(kind, ps), other) == 0
  {
    var cm := ControlMarks(kind, ps);
    forall i | 0 <= i < |cm| ensures cm[i].kind == kind { ControlMarksShape(kind, ps, i); }
    CountAllOfKind(cm, kind, other);
  }

  lemma EmphasisMarksKind(s: string, other: MarkKind)
    requires other != Emphasis
    ensures CountKind(EmphasisMarks(s), Emphasis) == |EmphasisSpans(s)|
    ensures CountKind(EmphasisMarks(s), other) == 0
  {
    CountAllOfKind(EmphasisMarks(s), Emphasis, other);
  }

  /** The pushed list is the four groups of marks one after another. */
  lemma PushedSplit(body: string, k: MarkKind)
    ensures var t0 := Unwrapped(body);
      var t1 := Remove(t0, '|');
      var t2 := Remove(t1, '↑');
      CountKind(PushedMarks(body), k) ==
        CountKind(EmphasisMarks(body), k) +
        CountKind(ControlMarks(ShortPause, SymbolPositions(t0, '|')), k) +
        CountKind(ControlMarks(Rise, SymbolPositions(t1, '↑')), k) +
        CountKind(ControlMarks(Fall, SymbolPositions(t2, '↓')), k)
  {
    var t0 := Unwrapped(body);
    var t1 := Remove(t0, '|');
    var t2 := Remove(t1, '↑');
    var em := EmphasisMarks(body);
    var p := ControlMarks(ShortPause, SymbolPositions(t0, '|'));
    var u := ControlMarks(Rise, SymbolPositions(t1, '↑'));
    var d := ControlMarks(Fall, SymbolPositions(t2, '↓'));
    assert PushedMarks(body) == em + p + u + d;
    CountKindAppend(em, p, k);
    CountKindAppend(em + p, u, k);
    CountKindAppend(em + p + u, d, k);
  }

  /** The marks of kind `k` in the pushed list come from the group of
      that kind. */
  lemma PushedCountOf(body: string, k: MarkKind)
    ensures var t0 := Unwrapped(body);
      var t1 := Remove(t0, '|');
      var t2 := Remove(t1, '↑');
      CountKind(PushedMarks(body), k) ==
        match k
        case Emphasis => |EmphasisSpans(body)|
        case ShortPause => |SymbolPositions(t0, '|')|
        case Rise => |SymbolPositions(t1, '↑')|
        case Fall => |SymbolPositions(t2, '↓')|
        case LongPause => 0
  {
    var t0 := Unwrapped(body);
    var t1 := Remove(t0, '|');
    var t2 := Remove(t1, '↑');
    var p0, p1, p2 := SymbolPositions(t0, '|'), SymbolPositions(t1, '↑'), SymbolPositions(t2, '↓');
    PushedSplit(body, k);
    var other := if k == LongPause then Emphasis else LongPause;
    EmphasisMarksKind(body, if k == Emphasis then other else k);
    ControlMarksKind(ShortPause, p0, if k == ShortPause then other else k);
    ControlMarksKind(Rise, p1, if k == Rise then other else k);
    ControlMarksKind(Fall, p2, if k == Fall then other else k);
    match k {
      case Emphasis =>
        assert CountKind(PushedMarks(body), k) == |EmphasisSpans(body)| + 0 + 0 + 0;
      case ShortPause =>
        assert CountKind(PushedMarks(body), k) == 0 + |p0| + 0 + 0;
      case Rise =>
        assert CountKind(PushedMarks(body), k) == 0 + 0 + |p1| + 0;
      case Fall =>
        assert CountKind(PushedMarks(body), k) == 0 + 0 + 0 + |p2|;
      case LongPause =>
        assert CountKind(PushedMarks(body), k) == 0 + 0 + 0 + 0;
    }
  }

  /** The number of marks of each kind in the pushed list. */
  lemma PushedCounts(body: string)
    ensures var pm := PushedMarks(body);
      CountKind(pm, Emphasis) == |EmphasisSpans(body)| &&
      CountKind(pm, ShortPause) == Count(body, '|') &&
      CountKind(pm, Rise) == Count(body, '↑') &&
      CountKind(pm, Fall) == Count(body, '↓') &&
      CountKind(pm, LongPause) == 0
  {
    SymbolCounts(body);
    PushedCountOf(body, Emphasis);
    PushedCountOf(body, ShortPause);
    PushedCountOf(body, Rise);
    PushedCountOf(body, Fall);
    PushedCountOf(body, LongPause);
  }

  /** Unwrapping the spans and deleting one symbol leave the counts of the
      other symbols alone. */
  lemma SymbolCounts(body: string)
    ensures var t0 := Unwrapped(body);
      var t1 := Remove(t0, '|');
      var t2 := Remove(t1, '↑');
      Count(t0, '|') == Count(body, '|') &&
      Count(t1, '↑') == Count(body, '↑') &&
      Count(t2, '↓') == Count(body, '↓')
  {
    var t0 := Unwrapped(body);
    var t1 := Remove(t0, '|');
    assert body[0..] == body;
    RewriteCount(body, 0, '*', '*', '|');
    RewriteCount(body, 0, '*', '*', '↑');
    RewriteCount(body, 0, '*', '*', '↓');
    CountRemoveOther(t0, '|', '↑');
    CountRemoveOther(t0, '|', '↓');
    CountRemoveOther(t1, '↑', '↓');
  }

  /** A segment carries one emphasis mark per span, one short pause per `|`,
      one rise per `↑`, one fall per `↓` of its body, and no long pause. */
  lemma SegmentMarkCounts(para: string, index: nat)
    ensures var seg := ParseSegment(para, index);
      var body := Body(para, index);
      CountKind(seg.marks, Emphasis) == |EmphasisSpans(body)| &&
      CountKind(seg.marks, ShortPause) == Count(body, '|') &&
      CountKind(seg.marks, Rise) == Count(body, '↑') &&
      CountKind(seg.marks, Fall) == Count(body, '↓') &&
      CountKind(seg.marks, LongPause) == 0
  {
    var body := Body(para, index);
    var pm := PushedMarks(body);
    PushedCounts(body);
    SortCountKind(pm, Emphasis);
    SortCountKind(pm, ShortPause);
    SortCountKind(pm, Rise);
    SortCountKind(pm, Fall);
    SortCountKind(pm, LongPause);
  }

  /** The marks are ascending by position, are exactly the pushed marks,
      and those sharing a position keep the order they were pushed in. */
  lemma SegmentMarksOrdered(para: string, index: nat, p: int)
    ensures var seg := ParseSegment(para, index);
      var pm := PushedMarks(Body(para, index));
      SortedByPosition(seg.marks) &&
      multiset(seg.marks) == multiset(pm) &&
      AtPosition(seg.marks, p) == AtPosition(pm, p)
  {
    SortStable(PushedMarks(Body(para, index)), p);
  }

  // ---------------------------------------------------------------------
  // Where the control marks are

  /** The reported positions of the symbols in `a + b`: those of `a`, then
      those of `b` shifted by the characters of `a` that stay. */
  lemma {:induction false} PositionsAppend(a: string, b: string, c: char, base: int, mid: int)
    requires mid == base + |a| - Count(a, c)
    ensures PositionsFrom(a + b, c, base) == PositionsFrom(a, c, base) + PositionsFrom(b, c, mid)
    decreases |a|
  {
    if a == [] {
      assert a + b == b;
    } else {
      assert (a + b)[0] == a[0];
      assert (a + b)[1..] == a[1..] + b;
      PositionsAppend(a[1..], b, c, if a[0] == c then base else base + 1, mid);
    }
  }

  lemma PositionsHead(b: string, c: char, base: int)
    ensures PositionsFrom([c] + b, c, base) == [base] + PositionsFrom(b, c, base)
  {
    assert ([c] + b)[1..] == b;
  }

  /** A symbol is reported at the index it would have in the text once
      every symbol of its kind is deleted. */
  lemma SymbolPosition(a: string, b: string, c: char)
    ensures var ps := SymbolPositions(a + [c] + b, c);
      Count(a, c) < |ps| && ps[Count(a, c)] == |Remove(a, c)|
  {
    var p := |a| - Count(a, c);
    var pa := PositionsFrom(a, c, 0);
    PositionsAppend(a, [c] + b, c, 0, p);
    PositionsHead(b, c, p);
    assert a + [c] + b == a + ([c] + b);
    var ps := pa + ([p] + PositionsFrom(b, c, p));
    assert ps[|pa|] == p;
  }

  lemma DoubleSymbolFirst(a: string, b: string, c: char)
    ensures var ps := SymbolPositions(a + [c, c] + b, c);
      Count(a, c) < |ps| && ps[Count(a, c)] == |Remove(a, c)|
  {
    DoubleSplit(a, b, c);
    SymbolPosition(a, [c] + b, c);
  }

  lemma DoubleSymbolSecond(a: string, b: string, c: char)
    ensures var ps := SymbolPositions(a + [c, c] + b, c);
      Count(a, c) + 1 < |ps| && ps[Count(a, c) + 1] == |Remove(a, c)|
  {
    DoubleSplit(a, b, c);
    SymbolPosition(a + [c], b, c);
    AppendSymbol(a, c);
  }

  /** The two ways of reading a doubled symbol as one symbol between texts. */
  lemma DoubleSplit(a: string, b: string, c: char)
    ensures a + [c, c] + b == a + [c] + ([c] + b)
    ensures a + [c, c] + b == (a + [c]) + [c] + b
  {
    assert [c, c] == [c] + [c];
  }

  lemma AppendSymbol(a: string, c: char)
    ensures Count(a + [c], c) == Count(a, c) + 1
    ensures Remove(a + [c], c) == Remove(a, c)
  {
    CountAppend(a, [c], c);
    RemoveAppend(a, [c], c);
    assert [c][1..] == [];
    assert Remove([c], c) == [];
  }

  /** Two symbols in a row are reported at the same position. */
  lemma DoubleSymbol(a: string, b: string, c: char)
    ensures var ps := SymbolPositions(a + [c, c] + b, c);
      var k := Count(a, c);
      k + 1 < |ps| && ps[k] == ps[k + 1] == |Remove(a, c)|
  {
    DoubleSymbolFirst(a, b, c);
    DoubleSymbolSecond(a, b, c);
  }

  /** `||` is read as two single pauses at one position: the long pause is
      never recognised. */
  lemma DoubleBarIsTwoPauses(a: string, b: string)
    ensures var ps := SymbolPositions(a + ['|', '|'] + b, '|');
      var k := Count(a, '|');
      k + 1 < |ps| && ps[k] == ps[k + 1] == |Remove(a, '|')|
  {
    DoubleSymbol(a, b, '|');
  }

  // ---------------------------------------------------------------------
  // Where the emphasis marks are

  /** The mark recorded for span `k` of `n`: it is pushed `n - 1 - k`-th
      and placed at `start - 2 * (n - 1 - k)`. */
  lemma EmphasisRecorded(s: string, k: nat)
    requires k < |EmphasisSpans(s)|
    ensures var ms := EmphasisSpans(s);
      var n := |ms|;
      EmphasisMarks(s)[n - 1 - k] ==
        Mark(Emphasis, ms[k].start - 2 * (n - 1 - k), Some(SpanText(s, k)))
  {
    var n := |EmphasisSpans(s)|;
    var j := n - 1 - k;
    assert n - 1 - j == k;
  }

  lemma PieceIsSpanText(s: string, k: nat, none: string)
    requires k < |EmphasisSpans(s)| && none == []
    ensures var m := EmphasisSpans(s)[k];
      m.start + 2 <= m.end <= |s| && Piece(s, m, none, none) == SpanText(s, k)
  {
    MatchesOrdered(s, 0, '*', '*', k);
  }

  lemma OffsetArith(k: nat, start: int, none: string)
    requires none == []
    ensures start + k * (|none| + |none| - 2) == start - 2 * k
  {
  }

  /** The text of span `k` begins at `start - 2 * k` of the unwrapped text:
      each span before it lost its two asterisks. */
  lemma EmphasisTextAt(s: string, k: nat)
    requires k < |EmphasisSpans(s)|
    ensures var ms := EmphasisSpans(s);
      var inner := SpanText(s, k);
      var at := ms[k].start - 2 * k;
      0 <= at && at + |inner| <= |Unwrapped(s)| &&
      Unwrapped(s)[at..at + |inner|] == inner
  {
    var none: string := [];
    MatchInRewrite(s, '*', '*', none, none, k);
    PieceIsSpanText(s, k, none);
    var m := EmphasisSpans(s)[k];
    OffsetArith(k, m.start, none);
  }

  /** Span `k` of `n` is recorded at `start - 2 * (n - 1 - k)`, while its
      text begins at `start - 2 * k` of the unwrapped text; the two agree
      only when as many spans follow it as precede it. */
  lemma EmphasisPosition(s: string, k: nat)
    requires k < |EmphasisSpans(s)|
    ensures var ms := EmphasisSpans(s);
      var n := |ms|;
      var mk := EmphasisMarks(s)[n - 1 - k];
      var inner := SpanText(s, k);
      var at := ms[k].start - 2 * k;
      mk.kind == Emphasis && mk.text == Some(inner) &&
      0 <= at && at + |inner| <= |Unwrapped(s)| &&
      Unwrapped(s)[at..at + |inner|] == inner &&
      (mk.position == at <==> n - 1 - k == k)
  {
    EmphasisRecorded(s, k);
    EmphasisTextAt(s, k);
  }

  // ---------------------------------------------------------------------
  // Worked examples

  /** `这是*重点*内容`: one span; its mark is at 2, where `重点` begins in
      the cleaned text. */
  lemma OneSpanExample()
    ensures EmphasisSpans("这是*重点*内容") == [Span(2, 6)]
    ensures Unwrapped("这是*重点*内容") == "这是重点内容"
    ensures EmphasisMarks("这是*重点*内容") == [Mark(Emphasis, 2, Some("重点"))]
  {
    var s := "这是*重点*内容";
    assert s == "这是" + ['*'] + "重点" + ['*'] + "内容";
    MatchesAfterFirst("这是", "重点", "内容", '*', '*');
    RewriteNoOpen("内容", 0, '*', '*', [], []);
    assert EmphasisSpans(s) == [Span(2, 6)];
    FirstMatchRewrite("这是", "重点", "内容", '*', '*', [], []);
    assert "内容"[0..] == "内容";
    assert SpanText(s, 0) == s[3..5] == "重点";
  }

  /** The spans of `*x*` followed by `b`: that span, then those of `b`. */
  lemma SpansLeading(x: char, b: string)
    requires x != '*'
    ensures EmphasisSpans(['*', x, '*'] + b) == [Span(0, 3)] + ShiftAll(EmphasisSpans(b), 3)
  {
    var empty: string := [];
    assert ['*', x, '*'] + b == empty + ['*'] + [x] + ['*'] + b;
    MatchesAfterFirst(empty, [x], b, '*', '*');
  }

  lemma ThreeSpansSpans()
    ensures EmphasisSpans("*a**b**c*") == [Span(0, 3), Span(3, 6), Span(6, 9)]
  {
    var empty: string := [];
    var c := ['*', 'c', '*'] + empty;
    var bc := ['*', 'b', '*'] + c;
    assert EmphasisSpans(empty) == [];
    SpansLeading('c', empty);
    assert EmphasisSpans(c) == [Span(0, 3)];
    SpansLeading('b', c);
    assert ShiftAll([Span(0, 3)], 3)[0] == Span(3, 6);
    assert EmphasisSpans(bc) == [Span(0, 3), Span(3, 6)];
    SpansLeading('a', bc);
    var tail := ShiftAll([Span(0, 3), Span(3, 6)], 3);
    assert tail[0] == Span(3, 6) && tail[1] == Span(6, 9);
    assert EmphasisSpans(['*', 'a', '*'] + bc) == [Span(0, 3), Span(3, 6), Span(6, 9)];
    assert ['*', 'a', '*'] + bc == "*a**b**c*";
  }

  /** Unwrapping `*x*` followed by `b` gives `x` followed by `b` unwrapped,
      when `x` is one character other than an asterisk. */
  lemma UnwrapLeading(x: char, b: string)
    requires x != '*'
    ensures Unwrapped(['*', x, '*'] + b) == [x] + Unwrapped(b)
  {
    var empty: string := [];
    var s := ['*', x, '*'] + b;
    assert s == empty + ['*'] + [x] + ['*'] + b;
    FirstMatchRewrite(empty, [x], b, '*', '*', [], []);
    BareJoin([x], Rewrite(b, 0, '*', '*', [], []));
    assert Unwrapped(s) == Rewrite(s, 0, '*', '*', [], []);
  }

  lemma BareJoin(y: string, r: string)
    ensures var e: string := []; e + ((e + y + e) + r) == y + r
  {
  }

  lemma ThreeSpansUnwrapped()
    ensures Unwrapped("*a**b**c*") == "abc"
  {
    var empty: string := [];
    var c := ['*', 'c', '*'] + empty;
    var bc := ['*', 'b', '*'] + c;
    UnwrapLeading('c', empty);
    UnwrapLeading('b', c);
    UnwrapLeading('a', bc);
    assert Unwrapped(empty) == [];
    assert ['*', 'a', '*'] + bc == "*a**b**c*";
  }

  lemma ThreeSpansTexts()
    ensures |EmphasisSpans("*a**b**c*")| == 3
    ensures SpanText("*a**b**c*", 0) == "a"
    ensures SpanText("*a**b**c*", 1) == "b"
    ensures SpanText("*a**b**c*", 2) == "c"
  {
    var s := "*a**b**c*";
    ThreeSpansSpans();
    assert SpanText(s, 0) == s[1..2];
    assert SpanText(s, 1) == s[4..5];
    assert SpanText(s, 2) == s[7..8];
  }

  /** `*a**b**c*`: the cleaned text is `abc`, but the marks pushed for
      `c`, `b`, `a` are at 6, 1 and -4, where the text has them at 2, 1
      and 0. */
  lemma ThreeSpansExample()
    ensures Unwrapped("*a**b**c*") == "abc"
    ensures EmphasisMarks("*a**b**c*") ==
      [Mark(Emphasis, 6, Some("c")), Mark(Emphasis, 1, Some("b")), Mark(Emphasis, -4, Some("a"))]
  {
    ThreeSpansUnwrapped();
    ThreeSpansSpans();
    ThreeSpansTexts();
  }

  /** A pair of asterisks with nothing between them is not a span and is
      left in the text. */
  lemma EmptySpanKeptExample()
    ensures EmphasisSpans("a**b") == []
    ensures Unwrapped("a**b") == "a**b"
  {
    var s := "a**b";
    assert MatchAt(s, 1, '*', '*').None?;
    assert MatchAt(s, 2, '*', '*').None?;
    assert FirstMatchFrom(s, 0, '*', '*').None?;
    assert s[0..] == s;
  }
}
