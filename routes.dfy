/** The two JSON export routes of the backend and the gloss-to-symbol
    rewrite of the Word export.  A route answers either with a rejection
    (HTTP 400 and a message) or with the exported body. */
module ExportRoutes {
  import opened Wrappers
  import opened JsText
  import opened ScriptText
  import opened ScriptParser
  import opened ParserProperties
  import opened KlingMapper

  datatype Response<T> = Rejected(status: nat, error: string) | Accepted(body: T)

  const JsonEmptyError := "台词区域没有内容，无法导出 JSON。请先在台词区域输入台词。"
  const KlingEmptyError := "台词区域没有内容，无法导出 Kling 请求。"

  /** `!content || content.trim().length === 0`; an absent field is `None`. */
  predicate MissingContent(content: Option<string>) {
    content.None? || content.value == [] || |Trim(content.value)| == 0
  }

  /** The guard rejects exactly the absent and the whitespace-only content. */
  lemma MissingContentIsBlank(content: Option<string>)
    ensures MissingContent(content) <==> content.None? || AllWhitespace(content.value)
  {
    if content.Some? {
      TrimShape(content.value);
    }
  }

  /** `POST /api/export-json`: the parsed document, or 400 for missing
      content.  Content that passes the guard has at least one segment. */
  function ExportJson(content: Option<string>, createdAt: string): (r: Response<ScriptDoc>)
    ensures r.Rejected? <==> content.None? || AllWhitespace(content.value)
    ensures r.Rejected? ==> r.status == 400 && r.error == JsonEmptyError
    ensures r.Accepted? ==> r.body == ParseScript(content.value, createdAt)
    ensures r.Accepted? ==> r.body.segments != [] && r.body.metadata.segmentCount == |r.body.segments|
  {
    MissingContentIsBlank(content);
    if MissingContent(content) then Rejected(400, JsonEmptyError)
    else
      var doc := ParseScript(content.value, createdAt);
      NonBlankHasSegments(content.value, createdAt);
      Accepted(doc)
  }

  /** A text that is not all whitespace gives a document with segments. */
  lemma NonBlankHasSegments(text: string, createdAt: string)
    requires !AllWhitespace(text)
    ensures var doc := ParseScript(text, createdAt);
      doc.segments != [] && doc.metadata.segmentCount == |doc.segments|
  {
    var i :| 0 <= i < |text| && !IsWhitespace(text[i]);
    ParagraphsOfNonBlank(text, i);
    DocumentShape(text, createdAt);
  }

  /** `POST /api/export-kling`: the script is parsed and then converted
      into a multi-shot request, or 400 for missing content. */
  function ExportKling(content: Option<string>, createdAt: string): (r: Response<KlingRequest>)
    ensures r.Rejected? <==> content.None? || AllWhitespace(content.value)
    ensures r.Rejected? ==> r.status == 400 && r.error == KlingEmptyError
    ensures r.Accepted? ==>
      ExportJson(content, createdAt).Accepted? &&
      r.body == ConvertScriptToKling(ExportJson(content, createdAt).body)
  {
    MissingContentIsBlank(content);
    if MissingContent(content) then Rejected(400, KlingEmptyError)
    else Accepted(ConvertScriptToKling(ParseScript(content.value, createdAt)))
  }

  /** An accepted Kling request has one shot per segment, at least one, and
      its duration is the sum of the shots' durations. */
  lemma ExportKlingShots(content: Option<string>, createdAt: string)
    requires ExportKling(content, createdAt).Accepted?
    ensures var req := ExportKling(content, createdAt).body;
      var doc := ExportJson(content, createdAt).body;
      |req.shots| == |doc.segments| > 0 && req.duration == ShotsDuration(req.shots)
  {
    ParsedDuration(content.value, createdAt);
  }

  // ---------------------------------------------------------------------
  // The Word export's mark symbols

  /** The bracketed glosses of the Word export and the symbols they become,
      in the order the rewrite applies them. */
  const Glosses: seq<(string, string)> := [
    ("[短停]", "⏸"),
    ("[长停]", "⏸⏸"),
    ("[上扬]", "↗"),
    ("[收尾]", "✓"),
    ("[重音]", "★"),
    ("[强调]", "★")
  ]

  /** `replaceMarks(line)`: each gloss replaced by its symbol, all
      occurrences, one gloss after the other. */
  function ReplaceMarks(line: string): (r: string)
    ensures forall x :: x in r ==> x in line || x in "⏸↗✓★"
    ensures '[' !in line ==> r == line
  {
    var s1 := ReplaceAll(line, Glosses[0].0, Glosses[0].1);
    var s2 := ReplaceAll(s1, Glosses[1].0, Glosses[1].1);
    var s3 := ReplaceAll(s2, Glosses[2].0, Glosses[2].1);
    var s4 := ReplaceAll(s3, Glosses[3].0, Glosses[3].1);
    var s5 := ReplaceAll(s4, Glosses[4].0, Glosses[4].1);
    ReplaceAll(s5, Glosses[5].0, Glosses[5].1)
  }

  /** Once the gloss is a symbol, no rule applies any more. */
  lemma SymbolRule(t: string, k: nat)
    requires k < |Glosses| && '[' !in t
    ensures ReplaceAll(t, Glosses[k].0, Glosses[k].1) == t
  {
    assert Glosses[k].0[0] == '[';
  }

  /** The line after the first `j` rules, for a line holding the single
      gloss `k`. */
  function Stage(a: string, k: nat, b: string, j: nat): string
    requires k < |Glosses|
  {
    if j <= k then a + Glosses[k].0 + b else a + Glosses[k].1 + b
  }

  lemma ChainStep(a: string, k: nat, b: string, j: nat)
    requires k < |Glosses| && j < |Glosses| && '[' !in a && '[' !in b
    ensures ReplaceAll(Stage(a, k, b, j), Glosses[j].0, Glosses[j].1) == Stage(a, k, b, j + 1)
  {
    var g := Glosses[k].0;
    assert |g| == 4 && g[0] == '[' && '[' !in g[1..];
    if j <= k {
      var pat := Glosses[j].0;
      assert pat[0] == '[' && |pat| == 4;
      assert g == pat <==> j == k;
      ReplaceAllOneCandidate(a, g, b, pat, Glosses[j].1);
    } else {
      assert '[' !in Glosses[k].1;
      SymbolRule(Stage(a, k, b, j), j);
    }
  }

  /** A line with a single gloss between bracket-free text has that gloss
      turned into its symbol and nothing else changed. */
  lemma ReplaceMarksOneGloss(a: string, k: nat, b: string)
    requires k < |Glosses| && '[' !in a && '[' !in b
    ensures ReplaceMarks(a + Glosses[k].0 + b) == a + Glosses[k].1 + b
  {
    ChainStep(a, k, b, 0);
    ChainStep(a, k, b, 1);
    ChainStep(a, k, b, 2);
    ChainStep(a, k, b, 3);
    ChainStep(a, k, b, 4);
    ChainStep(a, k, b, 5);
  }
}
