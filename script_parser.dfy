/** `parseScriptText`: an annotated voice-over script turned into the
    exported script document.  Each paragraph becomes one segment; its
    `*emphasis*` spans and the control symbols `|`, `↑`, `↓` are taken out
    of the text and recorded as positioned marks. */
module ScriptParser {
  import opened Wrappers
  import opened JsText
  import opened Delimited
  import opened Marks
  import opened ScriptText

  datatype Segment = Segment(
    id: string,
    role: string,
    section: string,
    durationHint: nat,
    rawText: string,
    marks: seq<Mark>)

  datatype Metadata = Metadata(totalDurationHint: nat, segmentCount: nat, language: string)

  /** The exported document; `createdAt` is the ISO time of the export. */
  datatype ScriptDoc = ScriptDoc(
    title: string,
    version: string,
    createdAt: string,
    exportedBy: string,
    metadata: Metadata,
    segments: seq<Segment>)

  // ---------------------------------------------------------------------
  // Emphasis spans `*x*`

  /** The spans the global pattern `\*([^*]+)\*` finds. */
  function EmphasisSpans(s: string): seq<Span>
  {
    MatchesFrom(s, 0, '*', '*')
  }

  /** The text with each span replaced by its inner text. */
  function Unwrapped(s: string): string
  {
    Rewrite(s, 0, '*', '*', [], [])
  }

  /** The inner text of span `k`. */
  function SpanText(s: string, k: nat): string
    requires k < |EmphasisSpans(s)|
  {
    MatchesOrdered(s, 0, '*', '*', k);
    Inner(s, EmphasisSpans(s)[k])
  }

  /** The emphasis marks in the order they are pushed: the last span first.
      The `j`-th mark pushed has position `start - 2 * j`, which subtracts
      two for each span that comes after it. */
  function EmphasisMarks(s: string): (r: seq<Mark>)
    ensures |r| == |EmphasisSpans(s)|
  {
    var n := |EmphasisSpans(s)|;
    seq(n, j requires 0 <= j < n =>
      Mark(Emphasis, EmphasisSpans(s)[n - 1 - j].start - 2 * j, Some(SpanText(s, n - 1 - j))))
  }

  /** The `while ((m = emphasisRegex.exec(contentText)) !== null)` loop. */
  method CollectEmphasis(s: string) returns (ms: seq<Span>)
    ensures ms == EmphasisSpans(s)
  {
    ms := [];
    var lastIndex := 0;
    var found := FirstMatchFrom(s, lastIndex, '*', '*');
    while found.Some?
      invariant lastIndex <= |s|
      invariant found == FirstMatchFrom(s, lastIndex, '*', '*')
      invariant ms + MatchesFrom(s, lastIndex, '*', '*') == MatchesFrom(s, 0, '*', '*')
      decreases |s| - lastIndex
    {
      var m := found.value;
      assert MatchesFrom(s, lastIndex, '*', '*') == [m] + MatchesFrom(s, m.end, '*', '*');
      ms := ms + [m];
      lastIndex := m.end;
      found := FirstMatchFrom(s, lastIndex, '*', '*');
    }
  }

  /** Before the backward loop: nothing is unwrapped yet. */
  lemma UnwrapStart(s: string)
    ensures var ms := EmphasisSpans(s);
      Boundary(s, ms, |ms|) == |s| &&
      s == s[..Boundary(s, ms, |ms|)] + Rewrite(s, Boundary(s, ms, |ms|), '*', '*', [], [])
  {
    assert s[..|s|] == s;
    assert Rewrite(s, |s|, '*', '*', [], []) == [];
  }

  /** After the backward loop: everything is unwrapped. */
  lemma UnwrapEnd(s: string)
    ensures var ms := EmphasisSpans(s);
      Boundary(s, ms, 0) <= |s| &&
      s[..Boundary(s, ms, 0)] + Rewrite(s, Boundary(s, ms, 0), '*', '*', [], []) == Unwrapped(s)
  {
    var ms := EmphasisSpans(s);
    if ms == [] {
      assert FirstMatchFrom(s, 0, '*', '*').None?;
      assert Rewrite(s, |s|, '*', '*', [], []) == [];
      assert s[..|s|] + [] == s[0..];
    } else {
      RewriteFirst(s, '*', '*', [], []);
    }
  }

  /** One step of the backward loop: splicing span `i`'s inner text over
      the span extends the unwrapped suffix to start at that span. */
  lemma UnwrapStep(s: string, i: nat, clean: string)
    requires i < |EmphasisSpans(s)|
    requires var ms := EmphasisSpans(s);
      Boundary(s, ms, i + 1) <= |s| &&
      clean == s[..Boundary(s, ms, i + 1)] + Rewrite(s, Boundary(s, ms, i + 1), '*', '*', [], [])
    ensures var m := EmphasisSpans(s)[i];
      m.start + 3 <= m.end <= |clean| && m.end <= |s| &&
      clean[..m.start] + Inner(s, m) + clean[m.end..]
        == s[..m.start] + Rewrite(s, m.start, '*', '*', [], [])
  {
    var ms := EmphasisSpans(s);
    var m := ms[i];
    var b := Boundary(s, ms, i + 1);
    RewriteStep(s, '*', '*', [], [], i);
    PieceBare(s, m);
    Splice(s, clean, m.start, m.end, b, Inner(s, m), Rewrite(s, b, '*', '*', [], []));
  }

  /** Splicing `x` over `clean[st..en]`, where `clean` is a prefix of `s`
      followed by `tail`. */
  lemma Splice(s: string, clean: string, st: nat, en: nat, b: nat, x: string, tail: string)
    requires st <= en <= b <= |s| && clean == s[..b] + tail
    ensures en <= |clean|
    ensures clean[..st] + x + clean[en..] == s[..st] + (x + (s[en..b] + tail))
  {
    assert clean[..st] == s[..st];
    assert clean[en..] == s[en..b] + tail;
  }

  lemma EmphasisMarksNext(s: string, i: nat)
    requires i < |EmphasisSpans(s)|
    ensures var ms := EmphasisSpans(s);
      var n := |ms|;
      ms[i].start + 2 <= ms[i].end <= |s| &&
      EmphasisMarks(s)[..n - i] == EmphasisMarks(s)[..n - 1 - i]
        + [Mark(Emphasis, ms[i].start - 2 * (n - 1 - i), Some(Inner(s, ms[i])))]
  {
    var ms := EmphasisSpans(s);
    var n := |ms|;
    var em := EmphasisMarks(s);
    MatchesOrdered(s, 0, '*', '*', i);
    EmphasisMarkAt(s, i);
    TakeSnoc(em, n - 1 - i, n - i);
  }

  /** The mark of span `i`, pushed as number `n - 1 - i`. */
  lemma EmphasisMarkAt(s: string, i: nat)
    requires i < |EmphasisSpans(s)|
    ensures var ms := EmphasisSpans(s);
      var n := |ms|;
      ms[i].start + 2 <= ms[i].end <= |s| &&
      EmphasisMarks(s)[n - 1 - i] == Mark(Emphasis, ms[i].start - 2 * (n - 1 - i), Some(Inner(s, ms[i])))
  {
    var ms := EmphasisSpans(s);
    var n := |ms|;
    var j := n - 1 - i;
    MatchesOrdered(s, 0, '*', '*', i);
    assert EmphasisMarks(s)[j] == Mark(Emphasis, ms[n - 1 - j].start - 2 * j, Some(SpanText(s, n - 1 - j)));
    assert n - 1 - j == i;
    assert SpanText(s, i) == Inner(s, ms[i]);
  }

  lemma TakeSnoc(xs: seq<Mark>, k: nat, k1: nat)
    requires k < |xs| && k1 == k + 1
    ensures xs[..k1] == xs[..k] + [xs[k]]
  {
  }

  /** The backward `for` loop that unwraps the spans and pushes their marks. */
  method UnwrapEmphasis(s: string, ms: seq<Span>) returns (clean: string, marks: seq<Mark>)
    requires ms == EmphasisSpans(s)
    ensures clean == Unwrapped(s)
    ensures marks == EmphasisMarks(s)
  {
    clean := s;
    marks := [];
    var offset := 0;
    var i := |ms|;
    UnwrapStart(s);
    while i > 0
      invariant 0 <= i <= |ms|
      invariant offset == 2 * (|ms| - i)
      invariant Boundary(s, ms, i) <= |s|
      invariant clean == s[..Boundary(s, ms, i)] + Rewrite(s, Boundary(s, ms, i), '*', '*', [], [])
      invariant marks == EmphasisMarks(s)[..|ms| - i]
    {
      i := i - 1;
      var m := ms[i];
      UnwrapStep(s, i, clean);
      var positionInClean := m.start - offset;
      EmphasisMarksNext(s, i);
      marks := marks + [Mark(Emphasis, positionInClean, Some(Inner(s, m)))];
      clean := clean[..m.start] + Inner(s, m) + clean[m.end..];
      offset := offset + 2;
    }
    UnwrapEnd(s);
  }

  // ---------------------------------------------------------------------
  // Control symbols `|`, `↑`, `↓`

  /** The positions the find-and-delete loop reports for `c`, each `base`
      plus the number of characters other than `c` before the occurrence. */
  function PositionsFrom(s: string, c: char, base: int): (r: seq<int>)
    ensures |r| == Count(s, c)
  {
    if s == [] then []
    else if s[0] == c then [base] + PositionsFrom(s[1..], c, base)
    else PositionsFrom(s[1..], c, base + 1)
  }

  /** The indices `indexOf` returns as each first `c` is deleted in turn. */
  function SymbolPositions(s: string, c: char): seq<int>
  {
    PositionsFrom(s, c, 0)
  }

  function ControlMarks(kind: MarkKind, ps: seq<int>): (r: seq<Mark>)
    ensures |r| == |ps|
  {
    if ps == [] then [] else [Mark(kind, ps[0], None)] + ControlMarks(kind, ps[1..])
  }

  lemma {:induction false} PositionsSkip(a: string, t: string, c: char, base: int)
    requires c !in a
    ensures PositionsFrom(a + t, c, base) == PositionsFrom(t, c, base + |a|)
    decreases |a|
  {
    if a != [] {
      assert (a + t)[0] == a[0];
      assert (a + t)[1..] == a[1..] + t;
      PositionsSkip(a[1..], t, c, base + 1);
    } else {
      assert a + t == t;
    }
  }

  /** Deleting the first `c` reports its index and leaves the others'
      positions and the text without `c` alone. */
  lemma DeleteFirst(s: string, c: char, i: nat)
    requires i == IndexOf(s, c) && i < |s|
    ensures var s' := s[..i] + s[i + 1..];
      SymbolPositions(s, c) == [i] + SymbolPositions(s', c) &&
      Remove(s', c) == Remove(s, c) && |s'| < |s|
  {
    var a, b := s[..i], s[i + 1..];
    assert s == a + ([c] + b);
    DeleteFirstPositions(a, b, c);
    DeleteFirstRemove(a, b, c);
  }

  lemma DeleteFirstPositions(a: string, b: string, c: char)
    requires c !in a
    ensures SymbolPositions(a + ([c] + b), c) == [|a|] + SymbolPositions(a + b, c)
  {
    PositionsSkip(a, [c] + b, c, 0);
    PositionsSkip(a, b, c, 0);
    assert ([c] + b)[1..] == b;
  }

  lemma DeleteFirstRemove(a: string, b: string, c: char)
    ensures Remove(a + ([c] + b), c) == Remove(a + b, c)
  {
    var ra, rb := Remove(a, c), Remove(b, c);
    RemoveAppend(a, [c] + b, c);
    RemoveAppend([c], b, c);
    assert Remove([c], c) == [] by { assert [c][1..] == []; }
    assert Remove([c] + b, c) == rb;
    RemoveAppend(a, b, c);
  }

  lemma ControlMarksCons(kind: MarkKind, p: int, ps: seq<int>)
    ensures ControlMarks(kind, [p] + ps) == [Mark(kind, p, None)] + ControlMarks(kind, ps)
  {
    assert ([p] + ps)[1..] == ps;
  }

  /** The `indexOf` loop for one symbol: record the first occurrence's index,
      delete it, look again. */
  method StripSymbol(text: string, c: char, kind: MarkKind) returns (out: string, marks: seq<Mark>)
    ensures out == Remove(text, c)
    ensures marks == ControlMarks(kind, SymbolPositions(text, c))
  {
    out := text;
    marks := [];
    var index := IndexOf(out, c);
    while index != -1
      invariant index == IndexOf(out, c)
      invariant Remove(out, c) == Remove(text, c)
      invariant marks + ControlMarks(kind, SymbolPositions(out, c)) == ControlMarks(kind, SymbolPositions(text, c))
      decreases |out|
    {
      var next := out[..index] + out[index + 1..];
      StripStep(text, out, c, kind, marks, index, next);
      marks := marks + [Mark(kind, index, None)];
      out := next;
      index := IndexOf(out, c);
    }
    RemoveAbsent(out, c);
    assert SymbolPositions(out, c) == [];
  }

  /** One turn of the `indexOf` loop keeps its invariant. */
  lemma StripStep(text: string, out: string, c: char, kind: MarkKind, marks: seq<Mark>, i: int, out': string)
    requires i == IndexOf(out, c) && i >= 0 && out' == out[..i] + out[i + 1..]
    requires marks + ControlMarks(kind, SymbolPositions(out, c)) == ControlMarks(kind, SymbolPositions(text, c))
    ensures (marks + [Mark(kind, i, None)]) + ControlMarks(kind, SymbolPositions(out', c))
        == ControlMarks(kind, SymbolPositions(text, c))
    ensures Remove(out', c) == Remove(out, c) && |out'| < |out|
  {
    DeleteFirst(out, c, i);
    var ps := SymbolPositions(out', c);
    assert SymbolPositions(out, c) == [i] + ps;
    var rest := ControlMarks(kind, ps);
    var mk := Mark(kind, i, None);
    ControlMarksCons(kind, i, ps);
    assert ControlMarks(kind, SymbolPositions(out, c)) == [mk] + rest;
    MarksAssoc(marks, [mk], rest);
  }

  lemma MarksAssoc(a: seq<Mark>, b: seq<Mark>, c: seq<Mark>)
    ensures (a + b) + c == a + (b + c)
  {
  }

  // ---------------------------------------------------------------------
  // One segment

  /** A CJK unified ideograph in U+4E00 … U+9FA5. */
  predicate IsHan(c: char) { '\U{4E00}' <= c <= '\U{9FA5}' }

  function CountHan(s: string): (n: nat)
    ensures n <= |s|
  {
    if s == [] then 0 else (if IsHan(s[0]) then 1 else 0) + CountHan(s[1..])
  }

  /** `Math.max(5, Math.ceil(h / 5))`: the least whole number of seconds,
      at least five, that allows five characters per second. */
  function DurationHint(h: nat): (d: nat)
    ensures d >= 5 && h <= 5 * d
    ensures d > 5 ==> 5 * (d - 1) < h
  {
    var c := (h + 4) / 5;
    if c < 5 then 5 else c
  }

  /** The text after the marks are taken out: the spans unwrapped, then all
      `|`, all `↑` and all `↓` deleted. */
  function StrippedText(body: string): string
  {
    Remove(Remove(Remove(Unwrapped(body), '|'), '↑'), '↓')
  }

  /** The marks in the order they are pushed. */
  function PushedMarks(body: string): seq<Mark>
  {
    var t0 := Unwrapped(body);
    var t1 := Remove(t0, '|');
    var t2 := Remove(t1, '↑');
    EmphasisMarks(body) + ControlMarks(ShortPause, SymbolPositions(t0, '|'))
      + ControlMarks(Rise, SymbolPositions(t1, '↑')) + ControlMarks(Fall, SymbolPositions(t2, '↓'))
  }

  /** The segment made from paragraph `para`, the `index`-th (from 0). */
  function ParseSegment(para: string, index: nat): Segment
  {
    var w := WorkingText(para);
    var sb := SectionAndBody(w, index);
    var raw := CleanSegmentText(StrippedText(sb.1));
    Segment("s" + NatToString(index + 1), "narrator", sb.0, DurationHint(CountHan(raw)), raw,
      SortByPosition(PushedMarks(sb.1)))
  }

  /** The body of the `paragraphs.forEach` callback. */
  method ParseParagraph(para: string, index: nat) returns (seg: Segment)
    ensures seg == ParseSegment(para, index)
  {
    var segmentId := "s" + NatToString(index + 1);
    var workingText := WorkingText(para);
    var section, contentText;
    match HeadingEnd(workingText) {
      case Some(e) =>
        section := Trim(workingText[..e]);
        contentText := Trim(workingText[e..]);
      case None =>
        section := "段落 " + NatToString(index + 1);
        contentText := workingText;
    }
    var spans := CollectEmphasis(contentText);
    var cleanText, marks := UnwrapEmphasis(contentText, spans);
    var pauses, rises, falls;
    cleanText, pauses := StripSymbol(cleanText, '|', ShortPause);
    cleanText, rises := StripSymbol(cleanText, '↑', Rise);
    cleanText, falls := StripSymbol(cleanText, '↓', Fall);
    marks := marks + pauses + rises + falls;
    cleanText := CleanSegmentText(cleanText);
    var durationHint := DurationHint(CountHan(cleanText));
    marks := SortByPosition(marks);
    seg := Segment(segmentId, "narrator", section, durationHint, cleanText, marks);
  }

  // ---------------------------------------------------------------------
  // The document

  /** `xs.map((x, index) => f(x, index))` restricted to the first `n`
      elements.  Taking `f` as a value keeps its definition out of the
      reasoning about positions. */
  function MapIndexed(f: (string, nat) -> Segment, xs: seq<string>, n: nat): (r: seq<Segment>)
    requires n <= |xs|
    ensures |r| == n
  {
    if n == 0 then [] else MapIndexed(f, xs, n - 1) + [f(xs[n - 1], n - 1)]
  }

  lemma {:induction false} MapIndexedAt(f: (string, nat) -> Segment, xs: seq<string>, n: nat, i: nat)
    requires i < n <= |xs|
    ensures MapIndexed(f, xs, n)[i] == f(xs[i], i)
    decreases n
  {
    if i < n - 1 { MapIndexedAt(f, xs, n - 1, i); }
  }

  /** One segment per paragraph, in order. */
  function Segments(paras: seq<string>): (r: seq<Segment>)
    ensures |r| == |paras|
  {
    MapIndexed(ParseSegment, paras, |paras|)
  }

  /** Segment `i` is made from paragraph `i`. */
  lemma SegmentAt(paras: seq<string>, i: nat)
    requires i < |paras|
    ensures Segments(paras)[i] == ParseSegment(paras[i], i)
  {
    MapIndexedAt(ParseSegment, paras, |paras|, i);
  }

  function TotalDuration(segs: seq<Segment>): nat
  {
    if segs == [] then 0 else TotalDuration(segs[..|segs| - 1]) + segs[|segs| - 1].durationHint
  }

  lemma TotalDurationSnoc(segs: seq<Segment>, s: Segment)
    ensures TotalDuration(segs + [s]) == TotalDuration(segs) + s.durationHint
  {
    assert (segs + [s])[..|segs|] == segs;
  }

  function ParseScript(text: string, createdAt: string): ScriptDoc
  {
    var segs := Segments(Paragraphs(text));
    ScriptDoc("智能口播提词稿", "1.0", createdAt, "ai-teleprompter",
      Metadata(TotalDuration(segs), |segs|, "zh-CN"), segs)
  }

  /** The `paragraphs.forEach` loop: one segment per paragraph, and the
      running sum of their duration hints. */
  method ParseParagraphs(paragraphs: seq<string>) returns (segments: seq<Segment>, totalDuration: nat)
    ensures segments == Segments(paragraphs)
    ensures totalDuration == TotalDuration(segments)
  {
    segments := [];
    totalDuration := 0;
    var index := 0;
    while index < |paragraphs|
      invariant index <= |paragraphs|
      invariant segments == MapIndexed(ParseSegment, paragraphs, index)
      invariant totalDuration == TotalDuration(segments)
    {
      var seg := ParseParagraph(paragraphs[index], index);
      TotalDurationSnoc(segments, seg);
      segments := segments + [seg];
      totalDuration := totalDuration + seg.durationHint;
      index := index + 1;
    }
  }

  /** `parseScriptText(text)`, with the export time passed in. */
  method ParseScriptText(text: string, createdAt: string) returns (doc: ScriptDoc)
    ensures doc == ParseScript(text, createdAt)
  {
    var paragraphs := Paragraphs(text);
    var segments, totalDuration := ParseParagraphs(paragraphs);
    doc := ScriptDoc("智能口播提词稿", "1.0", createdAt, "ai-teleprompter",
      Metadata(totalDuration, |segments|, "zh-CN"), segments);
  }
}
