/** `mapToKling`: the exported script document turned into a multi-shot
    video request.  Each segment's section label is classified into a scene
    role by an ordered keyword table; the role picks camera, action and
    emotion hints, which fill a fixed prompt template. */
module KlingMapper {
  import opened Wrappers
  import opened JsText
  import opened ScriptText
  import opened ScriptParser

  datatype SceneRole =
    | Hook | ValueProp | PainPoint | Credibility | PriceComparison
    | TrustBuilding | ContentDemo | LeadGeneration | Cta | General

  /** The role's name as the hint tables spell it. */
  function RoleName(r: SceneRole): string
  {
    match r
    case Hook => "hook"
    case ValueProp => "value_prop"
    case PainPoint => "pain_point"
    case Credibility => "credibility"
    case PriceComparison => "price_comparison"
    case TrustBuilding => "trust_building"
    case ContentDemo => "content_demo"
    case LeadGeneration => "lead_generation"
    case Cta => "cta"
    case General => "general"
  }

  lemma RoleNameInjective(a: SceneRole, b: SceneRole)
    requires RoleName(a) == RoleName(b)
    ensures a == b
  {
  }

  /** `SCENE_ROLE_MAP` in declaration order, which is the order the
      classifier tries the keywords in. */
  const SceneRoleTable: seq<(string, SceneRole)> := [
    ("留人", Hook),
    ("放钩子", Hook),
    ("价值", ValueProp),
    ("讲痛点", PainPoint),
    ("讲人设", Credibility),
    ("比价", PriceComparison),
    ("保障", TrustBuilding),
    ("讲试题/干货", ContentDemo),
    ("讲干货", ContentDemo),
    ("讲进群", LeadGeneration),
    ("稀缺", Cta),
    ("发福袋", Cta)]

  const CameraHintMap: map<string, string> := map[
    "hook" := "medium_shot",
    "value_prop" := "medium_shot",
    "pain_point" := "medium_shot",
    "credibility" := "medium_close_up",
    "price_comparison" := "medium_shot",
    "trust_building" := "medium_close_up",
    "content_demo" := "close_up",
    "lead_generation" := "medium_shot",
    "cta" := "close_up",
    "general" := "medium_shot"]

  const ActionHintMap: map<string, string> := map[
    "hook" := "hand_gesture_stop",
    "value_prop" := "pointing_to_product",
    "pain_point" := "worried_look",
    "credibility" := "confident_posture",
    "price_comparison" := "comparison_gesture",
    "trust_building" := "hand_on_heart",
    "content_demo" := "explaining_gesture",
    "lead_generation" := "pointing_down",
    "cta" := "countdown_gesture",
    "general" := "natural_gesture"]

  const EmotionMap: map<string, string> := map[
    "hook" := "excited",
    "value_prop" := "enthusiastic",
    "pain_point" := "担忧",
    "credibility" := "confident",
    "price_comparison" := "confident",
    "trust_building" := "reassuring",
    "content_demo" := "focused",
    "lead_generation" := "encouraging",
    "cta" := "urgent",
    "general" := "neutral"]

  /** `table[key] || fallback`: a missing key and an empty value both give
      the fallback. */
  function Lookup(table: map<string, string>, key: string, fallback: string): (r: string)
    ensures key in table && table[key] != [] ==> r == table[key]
    ensures key !in table || table[key] == [] ==> r == fallback
  {
    if key in table && table[key] != [] then table[key] else fallback
  }

  // ---------------------------------------------------------------------
  // Classifying a section label

  /** The first `replace`: a leading circled numeral and the whitespace
      after it are dropped. */
  function DropNumeral(s: string): (r: string)
    ensures |r| <= |s|
    ensures s == [] || !IsCircledNumeral(s[0]) ==> r == s
    ensures s != [] && IsCircledNumeral(s[0]) ==>
      var k := |s| - |r|;
      1 <= k && r == s[k..] && (forall i :: 1 <= i < k ==> IsWhitespace(s[i])) &&
      (r == [] || !IsWhitespace(r[0]))
  {
    if s != [] && IsCircledNumeral(s[0]) then
      var t := s[1..];
      t[LeadingWhitespace(t)..]
    else s
  }

  /** The second `replace`, which is not global: only the first group,
      from the first opening parenthesis to the next closing one, and the
      whitespace after it are dropped. */
  function DropFirstParenGroup(s: string): (r: string)
    ensures |r| <= |s|
    ensures var p := NextOpenParen(s, 0);
      var q := if p < |s| then NextCloseParen(s, p + 1) else |s|;
      if q == |s| then r == s else GroupDropped(s, p, q, r)
  {
    var p := NextOpenParen(s, 0);
    if p == |s| then s
    else
      var q := NextCloseParen(s, p + 1);
      if q == |s| then s else CutGroup(s, p, q)
  }

  /** The group from the opening parenthesis at `p` to the closing one at
      `q`, and the whitespace run after it, cut out of `s`. */
  function CutGroup(s: string, p: nat, q: nat): (r: string)
    requires p < q < |s|
    ensures GroupDropped(s, p, q, r)
  {
    var rest := s[q + 1..];
    var w := LeadingWhitespace(rest);
    DropGroupFacts(s, p, q, rest, w, s[..p] + rest[w..]);
    s[..p] + rest[w..]
  }

  /** `r` is `s` without the characters from position `p` through the
      closing parenthesis at `q` and the whole whitespace run after it. */
  predicate GroupDropped(s: string, p: nat, q: nat, r: string) {
    var k := p + (|s| - |r|);
    p < q < k <= |s| && r == s[..p] + s[k..] &&
    AllWhitespace(s[q + 1..k]) && (k == |s| || !IsWhitespace(s[k]))
  }

  /** Where the text after the group and its whitespace run starts. */
  lemma DropGroupFacts(s: string, p: nat, q: nat, rest: string, w: nat, r: string)
    requires p < q < |s| && rest == s[q + 1..] && w == LeadingWhitespace(rest)
    requires r == s[..p] + rest[w..]
    ensures GroupDropped(s, p, q, r) && p + (|s| - |r|) == q + 1 + w
  {
    assert rest[w..] == s[q + 1 + w..];
    assert s[q + 1..q + 1 + w] == rest[..w];
    if q + 1 + w < |s| {
      assert s[q + 1 + w] == rest[w];
    }
  }

  /** The cleaned label the keywords are searched in. */
  function NormalizeSection(section: string): (r: string)
    ensures Trimmed(r)
  {
    Trim(CollapseWhitespace(DropFirstParenGroup(DropNumeral(section))))
  }

  lemma NormalizeSectionSingleSpaced(section: string)
    ensures SingleSpaced(NormalizeSection(section))
  {
    var c := CollapseWhitespace(DropFirstParenGroup(DropNumeral(section)));
    CollapseWhitespaceSingleSpaced(DropFirstParenGroup(DropNumeral(section)));
    TrimSingleSpaced(c);
  }

  /** The first keyword, at index `from` or later, that occurs in `cleaned`. */
  function FirstKeyword(cleaned: string, from: nat): (r: Option<nat>)
    requires from <= |SceneRoleTable|
    ensures r.Some? ==>
      from <= r.value < |SceneRoleTable| && Contains(cleaned, SceneRoleTable[r.value].0) &&
      forall j :: from <= j < r.value ==> !Contains(cleaned, SceneRoleTable[j].0)
    ensures r.None? ==> forall j :: from <= j < |SceneRoleTable| ==> !Contains(cleaned, SceneRoleTable[j].0)
    decreases |SceneRoleTable| - from
  {
    if from == |SceneRoleTable| then None
    else if Contains(cleaned, SceneRoleTable[from].0) then Some(from)
    else FirstKeyword(cleaned, from + 1)
  }

  /** `extractSceneRole(section)`. */
  function ExtractSceneRole(section: string): SceneRole
  {
    if section == [] then General
    else
      match FirstKeyword(NormalizeSection(section), 0)
      case Some(k) => SceneRoleTable[k].1
      case None => General
  }

  /** No keyword of the table stands for `general`. */
  lemma TableRoles(k: nat)
    requires k < |SceneRoleTable|
    ensures SceneRoleTable[k].1 != General
  {
  }

  /** The role is that of the first keyword in table order that occurs in
      the cleaned label; with no such keyword, or no label, it is
      `general`. */
  lemma ExtractSceneRoleSpec(section: string)
    ensures var role := ExtractSceneRole(section);
      var cleaned := NormalizeSection(section);
      (role == General <==>
        section == [] || forall j :: 0 <= j < |SceneRoleTable| ==> !Contains(cleaned, SceneRoleTable[j].0)) &&
      (role != General ==>
        exists k :: 0 <= k < |SceneRoleTable| && SceneRoleTable[k].1 == role &&
          Contains(cleaned, SceneRoleTable[k].0) &&
          forall j :: 0 <= j < k ==> !Contains(cleaned, SceneRoleTable[j].0))
  {
    var cleaned := NormalizeSection(section);
    if section != [] {
      var f := FirstKeyword(cleaned, 0);
      if f.Some? {
        var k := f.value;
        ClassifiedBy(section, k);
        TableRoles(k);
        assert Contains(cleaned, SceneRoleTable[k].0);
      } else {
        assert ExtractSceneRole(section) == General;
      }
    }
  }

  // ---------------------------------------------------------------------
  // Hints

  function CameraHint(role: SceneRole): string
  {
    Lookup(CameraHintMap, RoleName(role), "medium_shot")
  }

  function ActionHint(role: SceneRole): string
  {
    Lookup(ActionHintMap, RoleName(role), "natural_gesture")
  }

  function EmotionHint(role: SceneRole): string
  {
    Lookup(EmotionMap, RoleName(role), "neutral")
  }

  /** Every role the classifier can return has a non-empty entry in all
      three hint tables, so the fallbacks are never used. */
  lemma HintTablesCover(role: SceneRole)
    ensures RoleName(role) in CameraHintMap && CameraHintMap[RoleName(role)] != []
    ensures RoleName(role) in ActionHintMap && ActionHintMap[RoleName(role)] != []
    ensures RoleName(role) in EmotionMap && EmotionMap[RoleName(role)] != []
    ensures CameraHint(role) == CameraHintMap[RoleName(role)]
    ensures ActionHint(role) == ActionHintMap[RoleName(role)]
    ensures EmotionHint(role) == EmotionMap[RoleName(role)]
  {
  }

  // ---------------------------------------------------------------------
  // The prompt

  const CameraDescMap: map<string, string> := map[
    "medium_shot" := "中景镜头",
    "close_up" := "特写镜头",
    "medium_close_up" := "中近景镜头"]

  const ActionDescMap: map<string, string> := map[
    "hand_gesture_stop" := "做出停止手势",
    "pointing_to_product" := "指向产品",
    "worried_look" := "关切的表情",
    "confident_posture" := "自信的姿态",
    "comparison_gesture" := "比较手势",
    "hand_on_heart" := "手放在心口",
    "explaining_gesture" := "讲解手势",
    "pointing_down" := "指向下方",
    "countdown_gesture" := "倒计时手势"]

  const EmotionDescMap: map<string, string> := map[
    "excited" := "兴奋",
    "enthusiastic" := "热情",
    "worried" := "关切",
    "confident" := "自信",
    "reassuring" := "令人安心",
    "focused" := "专注",
    "encouraging" := "鼓励",
    "urgent" := "紧迫"]

  const PromptHead: string := "现代演播室内的专业主播，"
  /** The template's text after the emotion description, up to the
      quotation. */
  const EmotionTail: string := "的表情，明亮的灯光，9:16竖屏格式。台词：\""
  const PromptTail: string := "...\"}"

  /** `t` ends `s`. */
  predicate IsSuffix(t: string, s: string) {
    |t| <= |s| && s[|s| - |t|..] == t
  }

  /** `raw_text.substring(0, 50)`. */
  function Quote(rawText: string): (q: string)
    ensures q <= rawText
    ensures |q| == if |rawText| < 50 then |rawText| else 50
  {
    if |rawText| < 50 then rawText else rawText[..50]
  }

  /** `{...}[cameraHint] || '中景镜头'`, and likewise for the action and the
      emotion. */
  function CameraDesc(hint: string): string { Lookup(CameraDescMap, hint, "中景镜头") }
  function ActionDesc(hint: string): string { Lookup(ActionDescMap, hint, "自然手势") }
  function EmotionDesc(hint: string): string { Lookup(EmotionDescMap, hint, "neutral") }

  /** The template up to the emotion description. */
  function PromptFront(cameraDesc: string, actionDesc: string, emotionDesc: string): string
  {
    PromptHead + cameraDesc + "，" + actionDesc + "，" + emotionDesc
  }

  /** `generatePrompt`; its scene-role argument is not used by the template. */
  function GeneratePrompt(segment: Segment, cameraHint: string, actionHint: string, emotion: string): (r: string)
    ensures PromptHead <= r
    ensures IsSuffix(EmotionTail + Quote(segment.rawText) + PromptTail, r)
  {
    var front := PromptFront(CameraDesc(cameraHint), ActionDesc(actionHint), EmotionDesc(emotion));
    var rest := EmotionTail + Quote(segment.rawText) + PromptTail;
    PromptFrontSplit(CameraDesc(cameraHint), ActionDesc(actionHint), EmotionDesc(emotion));
    SuffixOf([], front, rest);
    PrefixOfConcat(PromptHead, front, rest);
    front + rest
  }

  /** Where the descriptions sit in the front of the template. */
  lemma PromptFrontSplit(c: string, a: string, e: string)
    ensures PromptHead <= PromptFront(c, a, e)
    ensures PromptFront(c, a, e) == (PromptHead + c) + ("，" + a + "，" + e)
    ensures PromptFront(c, a, e) == (PromptHead + c + "，" + a) + ("，" + e)
  {
  }

  lemma SuffixOf(x: string, u: string, rest: string)
    ensures IsSuffix(u + rest, (x + u) + rest)
  {
    var p := (x + u) + rest;
    assert p == x + (u + rest);
    assert p[|x|..] == u + rest;
  }

  lemma PrefixOfConcat(h: string, a: string, b: string)
    requires h <= a
    ensures h <= a + b
  {
    assert (a + b)[..|h|] == a[..|h|];
  }

  /** The emotion description: the hint of `pain_point` (`担忧`) and of
      `general` (`neutral`) have no entry, so both render as `neutral`. */
  lemma EmotionDescription(role: SceneRole)
    ensures var d := EmotionDesc(EmotionHint(role));
      d == "neutral" <==> role == PainPoint || role == General
  {
  }

  /** The action description: only `general`'s `natural_gesture` has no
      entry and falls back to `自然手势`. */
  lemma ActionDescription(role: SceneRole)
    ensures var d := ActionDesc(ActionHint(role));
      d == "自然手势" <==> role == General
  {
  }

  /** A segment's prompt renders the emotion as `neutral` exactly when the
      section is a pain point or general, and a general section's action
      as `自然手势`. */
  lemma PromptDescriptions(segment: Segment)
    ensures var role := ExtractSceneRole(segment.section);
      var p := SegmentPrompt(segment);
      var rest := EmotionTail + Quote(segment.rawText) + PromptTail;
      (IsSuffix("，neutral" + rest, p) <==> role == PainPoint || role == General) &&
      (role == General ==> IsSuffix("，自然手势，neutral" + rest, p))
  {
    var role := ExtractSceneRole(segment.section);
    var rest := EmotionTail + Quote(segment.rawText) + PromptTail;
    var c, a, e := CameraDesc(CameraHint(role)), ActionDesc(ActionHint(role)), EmotionDesc(EmotionHint(role));
    assert SegmentPrompt(segment) == PromptFront(c, a, e) + rest;
    EmotionDescription(role);
    EmotionLastChar(role);
    NeutralEmotion(c, a, e, rest);
    if role == General {
      ActionDescription(role);
      NaturalGesture(c, rest);
    }
  }

  /** The front ends in `，neutral` exactly when the emotion description is
      `neutral`, for descriptions whose last letter tells them apart. */
  lemma NeutralEmotion(c: string, a: string, e: string, rest: string)
    requires e != [] && (e != "neutral" ==> e[|e| - 1] != 'l')
    ensures IsSuffix("，neutral" + rest, PromptFront(c, a, e) + rest) <==> e == "neutral"
  {
    var p := PromptFront(c, a, e) + rest;
    PromptFrontSplit(c, a, e);
    SuffixOf(PromptHead + c + "，" + a, "，" + e, rest);
    if e == "neutral" {
      assert "，" + e == "，neutral";
    } else if IsSuffix("，neutral" + rest, p) {
      SuffixCharBefore("，neutral", rest, p);
      SuffixCharBefore("，" + e, rest, p);
      assert false;
    }
  }

  lemma NaturalGesture(c: string, rest: string)
    ensures IsSuffix("，自然手势，neutral" + rest, PromptFront(c, "自然手势", "neutral") + rest)
  {
    PromptFrontSplit(c, "自然手势", "neutral");
    SuffixOf(PromptHead + c, "，" + "自然手势" + "，" + "neutral", rest);
    assert "，" + "自然手势" + "，" + "neutral" == "，自然手势，neutral";
  }

  /** The emotion description ends in `l` only when it is `neutral`. */
  lemma EmotionLastChar(role: SceneRole)
    ensures var d := EmotionDesc(EmotionHint(role));
      d != [] && (d != "neutral" ==> d[|d| - 1] != 'l')
  {
  }

  /** The character just before a suffix `rest` of `p` that itself ends
      `u + rest`. */
  lemma SuffixCharBefore(u: string, rest: string, p: string)
    requires u != [] && IsSuffix(u + rest, p)
    ensures |rest| < |p| && p[|p| - |rest| - 1] == u[|u| - 1]
  {
    var t := u + rest;
    assert p[|p| - |t|..][|u| - 1] == t[|u| - 1];
  }

  /** Every camera hint has a description. */
  lemma CameraDescription(role: SceneRole)
    ensures CameraHint(role) in CameraDescMap
  {
  }

  // ---------------------------------------------------------------------
  // The request

  datatype Shot = Shot(
    shotId: string,
    prompt: string,
    duration: nat,
    cameraMovement: string,
    referenceImages: seq<string>)

  datatype Style = Style(preset: string, colorGrading: string, sceneConsistency: string)

  datatype KlingRequest = KlingRequest(
    model: string,
    mode: string,
    duration: nat,
    aspectRatio: string,
    style: Style,
    shots: seq<Shot>)

  /** The prompt of one segment, through its scene role. */
  function SegmentPrompt(segment: Segment): string
  {
    var role := ExtractSceneRole(segment.section);
    GeneratePrompt(segment, CameraHint(role), ActionHint(role), EmotionHint(role))
  }

  /** The `segments.map` callback; both branches of its camera choice are
      `static`. */
  function MakeShot(segment: Segment, index: nat, count: nat): Shot
  {
    Shot(ShotId(index), SegmentPrompt(segment), segment.durationHint,
      if index == count - 1 then "static" else "static", [])
  }

  /** `shot_${index + 1}`. */
  function ShotId(index: nat): string
  {
    "shot_" + NatToString(index + 1)
  }

  /** `convertScriptToKling(scriptJson)`. */
  function ConvertScriptToKling(doc: ScriptDoc): (r: KlingRequest)
    ensures |r.shots| == |doc.segments|
    ensures r.duration == doc.metadata.totalDurationHint
    ensures r.model == "kling-v1.5" && r.mode == "pro" && r.aspectRatio == "9:16"
    ensures r.style == Style("live_broadcast", "vibrant", "high")
  {
    var segs := doc.segments;
    var shots := seq(|segs|, i requires 0 <= i < |segs| => MakeShot(segs[i], i, |segs|));
    KlingRequest("kling-v1.5", "pro", doc.metadata.totalDurationHint, "9:16",
      Style("live_broadcast", "vibrant", "high"), shots)
  }

  /** Shot `i` comes from segment `i`. */
  lemma ShotAt(doc: ScriptDoc, i: nat)
    requires i < |doc.segments|
    ensures var shot := ConvertScriptToKling(doc).shots[i];
      var segment := doc.segments[i];
      shot.shotId == ShotId(i) &&
      shot.prompt == SegmentPrompt(segment) &&
      shot.duration == segment.durationHint &&
      shot.cameraMovement == "static" &&
      shot.referenceImages == []
  {
  }

  lemma ShotIdsDistinct(doc: ScriptDoc, i: nat, j: nat)
    requires i < |doc.segments| && j < |doc.segments| && i != j
    ensures ConvertScriptToKling(doc).shots[i].shotId != ConvertScriptToKling(doc).shots[j].shotId
  {
    ShotAt(doc, i);
    ShotAt(doc, j);
    ShotIdsDiffer(i, j);
  }

  lemma ShotIdsDiffer(i: nat, j: nat)
    requires i != j
    ensures ShotId(i) != ShotId(j)
  {
    var a, b := NatToString(i + 1), NatToString(j + 1);
    var p := "shot_";
    assert ShotId(i) == p + a && ShotId(j) == p + b;
    if p + a == p + b {
      assert a == (p + a)[|p|..];
      assert b == (p + b)[|p|..];
      NatToStringInjective(i + 1, j + 1);
    }
  }

  /** An empty document gives a request without shots, not an error. */
  lemma EmptyDocument(doc: ScriptDoc)
    requires doc.segments == []
    ensures ConvertScriptToKling(doc).shots == []
  {
  }

  /** The sum of the shots' durations. */
  function ShotsDuration(shots: seq<Shot>): nat
  {
    if shots == [] then 0 else ShotsDuration(shots[..|shots| - 1]) + shots[|shots| - 1].duration
  }

  lemma {:induction false} ShotsDurationMatches(segs: seq<Segment>, shots: seq<Shot>)
    requires |shots| == |segs|
    requires forall i :: 0 <= i < |segs| ==> shots[i].duration == segs[i].durationHint
    ensures ShotsDuration(shots) == TotalDuration(segs)
    decreases |segs|
  {
    if segs != [] {
      ShotsDurationMatches(segs[..|segs| - 1], shots[..|shots| - 1]);
    }
  }

  /** The request's duration is copied from the document's metadata; for a
      parsed script it is the sum of the shots' durations. */
  lemma ParsedDuration(text: string, createdAt: string)
    ensures var r := ConvertScriptToKling(ParseScript(text, createdAt));
      r.duration == ShotsDuration(r.shots)
  {
    var doc := ParseScript(text, createdAt);
    var r := ConvertScriptToKling(doc);
    forall i | 0 <= i < |doc.segments| ensures r.shots[i].duration == doc.segments[i].durationHint {
      ShotAt(doc, i);
    }
    ShotsDurationMatches(doc.segments, r.shots);
  }

  // ---------------------------------------------------------------------
  // Examples

  lemma {:induction false} ContainsAt(s: string, sub: string, i: nat)
    requires i + |sub| <= |s| && s[i..i + |sub|] == sub
    ensures Contains(s, sub)
    decreases i
  {
    if i == 0 {
      assert sub <= s;
    } else {
      assert s[1..][i - 1..i - 1 + |sub|] == s[i..i + |sub|];
      ContainsAt(s[1..], sub, i - 1);
    }
  }

  lemma {:induction false} ContainsNeedsFirst(s: string, sub: string)
    requires sub != [] && sub[0] !in s
    ensures !Contains(s, sub)
    decreases |s|
  {
    if s != [] {
      assert s[0] in s;
      assert s[1..] <= s[1..] && sub[0] !in s[1..] by {
        forall x | x in s[1..] ensures x in s { }
      }
      ContainsNeedsFirst(s[1..], sub);
    }
  }

  /** A label with no whitespace, no parenthesis and no leading numeral is
      its own cleaned form. */
  predicate Plain(s: string) {
    forall i :: 0 <= i < |s| ==> !IsWhitespace(s[i]) && !IsOpenParen(s[i]) && !IsCircledNumeral(s[i])
  }

  lemma {:induction false} CollapsePlain(s: string)
    requires forall i :: 0 <= i < |s| ==> !IsWhitespace(s[i])
    ensures CollapseWhitespace(s) == s
    decreases |s|
  {
    if s != [] {
      CollapsePlain(s[1..]);
    }
  }

  lemma NormalizePlain(s: string)
    requires Plain(s)
    ensures NormalizeSection(s) == s
  {
    assert DropNumeral(s) == s;
    assert DropFirstParenGroup(s) == s;
    NormalizeThrough(s, s);
  }

  lemma DropNumeralExample()
    ensures DropNumeral("① 留人（约3秒）") == "留人（约3秒）"
  {
    var s := "① 留人（约3秒）";
    var t := s[1..];
    assert t[0] == ' ' && !IsWhitespace(t[1]);
    assert LeadingWhitespace(t) == 1;
  }

  lemma ParenExample()
    ensures DropFirstParenGroup("留人（约3秒）") == "留人"
  {
    var s := "留人（约3秒）";
    assert !IsOpenParen(s[0]) && !IsOpenParen(s[1]) && IsOpenParen(s[2]);
    assert NextOpenParen(s, 0) == 2;
    assert !IsCloseParen(s[3]) && !IsCloseParen(s[4]) && !IsCloseParen(s[5]) && IsCloseParen(s[6]);
    assert NextCloseParen(s, 3) == 6;
    assert s[7..] == [];
  }

  /** The replace is not global: of two groups only the first goes, with
      the space after it. */
  lemma ParenTwoGroupsExample()
    ensures DropFirstParenGroup("甲（1） 乙（2）") == "甲乙（2）"
  {
    var s := "甲（1） 乙（2）";
    assert !IsOpenParen(s[0]) && IsOpenParen(s[1]);
    assert NextOpenParen(s, 0) == 1;
    assert !IsCloseParen(s[2]) && IsCloseParen(s[3]);
    assert NextCloseParen(s, 2) == 3;
    var rest := s[4..];
    assert rest == " 乙（2）";
    assert IsWhitespace(rest[0]) && !IsWhitespace(rest[1]);
    assert LeadingWhitespace(rest[1..]) == 0;
    assert LeadingWhitespace(rest) == 1;
    assert s[..1] + rest[1..] == "甲乙（2）";
  }

  lemma NormalizeHookExample(s: string)
    requires s == "① 留人（约3秒）"
    ensures NormalizeSection(s) == "留人"
  {
    DropNumeralExample();
    ParenExample();
    HookPlain("留人");
    NormalizeThrough(s, "留人");
  }

  lemma HookPlain(c: string)
    requires c == "留人"
    ensures Plain(c)
  {
  }

  /** A label whose numeral and first parenthesised group leave a plain
      string is cleaned to that string. */
  lemma NormalizeThrough(s: string, b: string)
    requires DropFirstParenGroup(DropNumeral(s)) == b && Plain(b)
    ensures NormalizeSection(s) == b
  {
    CollapsePlain(b);
    if b != [] { assert !IsWhitespace(b[0]) && !IsWhitespace(b[|b| - 1]); }
    TrimOfTrimmed(b);
  }

  lemma HookKeyword(c: string)
    requires c == "留人"
    ensures FirstKeyword(c, 0) == Some(0)
  {
    ContainsAt(c, SceneRoleTable[0].0, 0);
  }

  /** `① 留人（约3秒）` is cleaned to `留人` and classified as a hook. */
  lemma HookExample(s: string)
    requires s == "① 留人（约3秒）"
    ensures NormalizeSection(s) == "留人"
    ensures ExtractSceneRole(s) == Hook
  {
    NormalizeHookExample(s);
    HookKeyword(NormalizeSection(s));
    ClassifiedBy(s, 0);
  }

  lemma OrderLabelPlain(s: string)
    requires s == "讲痛点和价值"
    ensures NormalizeSection(s) == s
  {
    assert Plain(s);
    NormalizePlain(s);
  }

  lemma OrderLabelKeywords(s: string)
    requires s == "讲痛点和价值"
    ensures !Contains(s, SceneRoleTable[0].0) && !Contains(s, SceneRoleTable[1].0)
    ensures Contains(s, SceneRoleTable[2].0)
  {
    ContainsNeedsFirst(s, "留人");
    ContainsNeedsFirst(s, "放钩子");
    assert s[4..6] == "价值";
    ContainsAt(s, "价值", 4);
  }

  /** The table is tried in order: a label naming both a pain point and a
      value is classified by `价值`, which comes first. */
  lemma OrderExample(s: string)
    requires s == "讲痛点和价值"
    ensures ExtractSceneRole(s) == ValueProp
  {
    OrderKeyword(s);
    ClassifiedValueProp(s);
  }

  lemma ClassifiedValueProp(section: string)
    requires section != [] && FirstKeyword(NormalizeSection(section), 0) == Some(2)
    ensures ExtractSceneRole(section) == ValueProp
  {
    ClassifiedBy(section, 2);
    ValuePropEntry();
  }

  lemma ValuePropEntry()
    ensures SceneRoleTable[2].1 == ValueProp
  {
  }

  lemma OrderKeyword(s: string)
    requires s == "讲痛点和价值"
    ensures s != [] && FirstKeyword(NormalizeSection(s), 0) == Some(2)
  {
    OrderLabelPlain(s);
    OrderLabelKeywords(s);
    FirstKeywordOrder(s);
  }

  lemma ClassifiedBy(section: string, k: nat)
    requires section != [] && FirstKeyword(NormalizeSection(section), 0) == Some(k)
    ensures k < |SceneRoleTable| && ExtractSceneRole(section) == SceneRoleTable[k].1
  {
  }

  lemma FirstKeywordOrder(s: string)
    requires !Contains(s, SceneRoleTable[0].0) && !Contains(s, SceneRoleTable[1].0)
    requires Contains(s, SceneRoleTable[2].0)
    ensures FirstKeyword(s, 0) == Some(2)
  {
    assert FirstKeyword(s, 0) == FirstKeyword(s, 1) == FirstKeyword(s, 2);
  }
}
