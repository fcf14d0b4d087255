# Teleprompter script model

The teleprompter system helps a presenter write a spoken script and mark
how to say it. The script is annotated in the editor:

- `*重点*` for stress;
- `|` and `||` for short and long pauses;
- `↑` and `↓` for rising and falling intonation;
- `【…】` for flagged passages.

This project models in Dafny the text-processing core of that system and
proves properties of it:

- **Script parser** (`backend/server.js`). The script is split into
  paragraphs before each circled numeral ①–⑩. Each paragraph gets:
  - its section heading, e.g. `① 放钩子（约5秒）`;
  - its body, with every mark taken out and recorded with its position;
  - a cleaned `raw_text` and a duration hint.

  The segments are gathered into one document with metadata. The module
  also models the two export routes (`/api/export-json`,
  `/api/export-kling`) and the gloss-to-symbol rewrite of the Word export.
- **Kling mapper** (`backend/utils/mapToKling.js`):
  - classifies a section name into a scene role through the keyword table;
  - builds a text-to-video prompt from the role's hints;
  - turns a parsed document into a multi-shot request.
- **Editor text helpers** (`frontend/src/App.tsx`, and the same code in
  `frontend/src/paste.tsx`):
  - removing marks;
  - the Word-export serialization of marks into bracketed glosses;
  - the text sent to speech synthesis;
  - the toolbar's mark insertion.
- **Subtitle export** (`frontend/src/App.tsx`): `formatSrtTime` and `toSrt`.
- **Subscription slice** (`frontend/src/store/subscriptionSlice.js`): a class
  whose reducers update the state in place, beside a value-level `Reduce`
  that the lemmas reason about.

Modules, one concern each:

| module | concern |
|---|---|
| `Wrappers` | `Option` |
| `JsText` | JavaScript string operations used by the code: `trim` with its whitespace set, `indexOf`, global `replace` of a character or a literal, decimal rendering of a number, `padStart`, `join` |
| `Marks` | the mark records and the stable sort by position |
| `Delimited` | the one scanner shared by `/\*([^*]+)\*/g` and `/【([^】]+)】/g`: leftmost non-overlapping matches and the rewrite of each match |
| `ScriptText` | paragraph splitting, heading matching and the cleaning of segment text |
| `ScriptParser` | the parser, with its loops as methods proved against specification functions |
| `ParserProperties` | what the parse promises |
| `KlingMapper` | the Kling mapper |
| `ExportRoutes` | the export routes and `replaceMarks` |
| `EditorText` | the editor helpers |
| `Subtitles` | the subtitle export |
| `Subscription` | the store slice |

Behaviour of the code that the model keeps as written:

- **Emphasis positions.** The emphasis loop runs from the last match to the
  first. Each recorded position is the match's index minus two for every
  match after it, not before it. So with several stressed spans, only the
  middle one's position is where its text starts in the cleaned body, and a
  position can be negative. This is proved in
  `ParserProperties.EmphasisPosition` and shown in
  `ParserProperties.ThreeSpansExample`.
- **Pauses.** `||` is never a long pause. The bar loop records two short
  pauses at the same position
  (`ParserProperties.DoubleBarIsTwoPauses`).
- **Quotes in `raw_text`.** The comment at `backend/server.js:117` speaks of
  removing every leading and trailing quote. The code strips one run of
  quotes at each end and then trims. A quote left behind a space survives:
  `“ “好` becomes `“好` (`ScriptText.CleanKeepsInnerQuote`).
- **ASCII quotes only.** The character classes at `backend/server.js:36`
  and `:166` hold only the ASCII `"` (with `'` and `` ` `` at `:166`), even
  where the comments speak of Chinese quotes.

## Model

| member | source | states |
|---|---|---|
| JsText.TrimShape | backend/server.js:186 | what `trim` removes is whitespace at both ends, and the trimmed text is empty exactly when the text is all whitespace |
| JsText.LeadingWhitespace | backend/server.js:27 | the leading whitespace run of `trim` is as long as it can be |
| JsText.TrailingWhitespace | backend/server.js:27 | the trailing whitespace run of `trim` is as long as it can be |
| JsText.Trim | backend/server.js:27 | `trim` yields the slice between the whitespace runs, with whitespace at neither end |
| JsText.TrimOfTrimmed | backend/server.js:120 | trimming a trimmed text changes nothing |
| JsText.TrimSingleSpaced | backend/server.js:120 | trimming keeps a single-spaced text single-spaced |
| JsText.Count | backend/server.js:98-112 | a character's count is bounded by the length and is zero exactly when the character is absent |
| JsText.IndexOf | backend/server.js:99 | `indexOf` is -1 exactly when the character is absent; otherwise the index holds the character and no earlier index does |
| JsText.Remove | backend/server.js:98-112 | the loop's final text holds no occurrence of the symbol, is shorter by the symbol's count, and holds only characters of the input |
| JsText.RemoveAbsent | backend/server.js:99 | without the symbol the text is unchanged |
| JsText.CountRemoveOther | backend/server.js:98-112 | removing one symbol leaves the count of every other symbol unchanged |
| JsText.ReplaceChar | frontend/src/App.tsx:1191 | a global one-character replace yields only characters of the input other than that one, or of the replacement; without the character, the text is unchanged |
| JsText.ReplaceCharAppend | frontend/src/App.tsx:1191 | a one-character replace distributes over concatenation |
| JsText.ReplaceAll | backend/server.js:242-247 | a global literal replace yields only characters of the input or the replacement; a text without the pattern's first character is unchanged |
| JsText.ReplaceAllPlainPrefix | backend/server.js:242-247 | a prefix without the pattern's first character passes through unchanged |
| JsText.ReplaceAllAtStart | backend/server.js:242-247 | an occurrence at the start is replaced and the scan resumes after it |
| JsText.ReplaceAllOneCandidate | backend/server.js:242-247 | with a single candidate position, the text changes exactly when the candidate is the pattern |
| JsText.ReplaceAllNearMiss | backend/server.js:242-247 | a candidate that differs from the pattern is kept |
| JsText.DeleteChars | frontend/src/App.tsx:1180 | deleting a character class leaves none of its characters, only characters of the input, and a text without them unchanged |
| JsText.DeleteCharsDrop | frontend/src/App.tsx:1180 | one deleted character anywhere makes no difference to the result |
| JsText.NatToString | backend/server.js:33 | the decimal rendering is a non-empty digit string without a leading zero |
| JsText.NatToStringRoundTrip | backend/server.js:33 | reading the rendering back gives the number |
| JsText.NatToStringInjective | backend/server.js:33 | distinct numbers have distinct renderings |
| JsText.PadStart | frontend/src/App.tsx:1354 | `padStart` gives the longer of the text and the width, ends with the text, and keeps a digit string all digits |
| JsText.PadStartValue | frontend/src/App.tsx:1354 | zero-padding does not change the value a number's rendering denotes |
| JsText.Join | frontend/src/App.tsx:1364 | joining no parts gives the empty text and one part gives that part |
| JsText.JoinCons | frontend/src/App.tsx:1364 | two or more parts join as the first part, the separator and the join of the rest |
| ScriptText.NextNumeral | backend/server.js:27 | the split's lookahead finds the first circled numeral at or after a position, or the end |
| ScriptText.SplitBeforeNumerals | backend/server.js:27 | the split has at least one piece |
| ScriptText.SplitBeforeNumeralsShape | backend/server.js:27 | the pieces concatenate back to the text, every piece after the first starts with a circled numeral, and none holds one elsewhere |
| ScriptText.SplitPrefix | backend/server.js:27 | the first piece is a prefix of the text, non-empty when the text is |
| ScriptText.TrimNonEmpty | backend/server.js:27 | the kept paragraphs are trimmed and non-empty, and there are no more of them than pieces |
| ScriptText.TrimNonEmptyBlank | backend/server.js:27 | pieces that trim to nothing are all dropped |
| ScriptText.ParagraphsOfBlank | backend/server.js:27 | an all-whitespace script has no paragraphs |
| ScriptText.ParagraphsOfNonBlank | backend/server.js:27 | a script with a non-whitespace character has a paragraph |
| ScriptText.TrimNonEmptyKeeps | backend/server.js:27 | a piece that does not trim to nothing keeps the list non-empty |
| ScriptText.NonEmpty | backend/server.js:27 | the filter keeps only non-empty pieces of its input, never more of them |
| ScriptText.NonEmptySingle | backend/server.js:27 | the filter keeps a single piece exactly when it is non-empty |
| ScriptText.NonEmptyAppend | backend/server.js:27 | the filter of a concatenation is the concatenation of the filters, so every non-empty piece is kept, in order |
| ScriptText.TrimNonEmptySingle | backend/server.js:27 | one piece gives its trimmed text, unless that is empty |
| ScriptText.TrimNonEmptyAppend | backend/server.js:27 | trimming and filtering keep the pieces' order: the paragraphs of a concatenation are the paragraphs of each part, one after the other |
| ScriptText.LeadingQuoteSpace | backend/server.js:36 | the leading run of `"` and whitespace is as long as it can be |
| ScriptText.WorkingText | backend/server.js:36 | the working text starts with neither `"` nor whitespace |
| ScriptText.NextOpenParen | backend/server.js:40 | finds the first opening parenthesis, full-width or ASCII, at or after a position |
| ScriptText.NextCloseParen | backend/server.js:40 | finds the first closing parenthesis, full-width or ASCII, at or after a position |
| ScriptText.HeadingEnd | backend/server.js:40 | a heading match is at least three characters long and within the text |
| ScriptText.HeadingEndSound | backend/server.js:40 | a match found is a numeral, text without opening parentheses, and a parenthesised group without closing parentheses |
| ScriptText.HeadingEndComplete | backend/server.js:40 | every text of that form is matched, with the same end |
| ScriptText.StripStructurePrefix | backend/server.js:175-180 | `stripStructurePrefix` yields trimmed text |
| ScriptText.StripStructurePrefixIsBody | backend/server.js:45-53 | on a paragraph with a heading, `stripStructurePrefix` is the body the parser takes |
| ScriptText.TrimDropLeading | backend/server.js:175-180 | removing leading whitespace before trimming changes nothing |
| ScriptText.CollapseWhitespace | backend/server.js:115 | `replace(/\s+/g, ' ')` leaves non-whitespace input characters and spaces, and keeps or spaces the first character |
| ScriptText.CollapseWhitespaceSingleSpaced | backend/server.js:115 | after collapsing there is no whitespace but single spaces |
| ScriptText.LeadingQuotes | backend/server.js:118 | the leading quote run is as long as it can be |
| ScriptText.TrailingQuotes | backend/server.js:119 | the trailing quote run is as long as it can be |
| ScriptText.StripQuotes | backend/server.js:118-119 | the stripped text is the slice between the leading and the trailing quote runs: what is removed is quotes, and the result neither starts nor ends with a quote |
| ScriptText.StripQuotesSingleSpaced | backend/server.js:118-119 | stripping quotes keeps a single-spaced text single-spaced |
| ScriptText.StripQuotesChars | backend/server.js:118-119 | stripping quotes adds no characters |
| ScriptText.CleanSegmentText | backend/server.js:115-120 | the cleaned segment text is trimmed |
| ScriptText.CleanSegmentTextSingleSpaced | backend/server.js:115-120 | the cleaned segment text is single-spaced |
| ScriptText.CleanSegmentTextChars | backend/server.js:115-120 | the cleaned segment text holds only non-whitespace input characters and spaces |
| ScriptText.CleanKeepsInnerQuote | backend/server.js:118-120 | `“ “好` cleans to `“好`: a quote behind a space survives the single strip pass |
| ScriptText.CollapseExample | backend/server.js:115 | collapsing keeps `“ “好` as it is |
| ScriptText.TrimExample | backend/server.js:120 | trimming keeps `“ “好` as it is |
| ScriptText.QuotesExample | backend/server.js:118-119 | stripping quotes from `“ “好` removes only the first quote |
| ScriptText.TrimExample2 | backend/server.js:120 | the final trim takes the space off ` “好` |
| ScriptText.LeadingAsciiQuotes | backend/server.js:166 | the leading ASCII quote run is as long as it can be |
| ScriptText.TrailingAsciiQuotes | backend/server.js:166 | the trailing ASCII quote run is as long as it can be |
| ScriptText.StripAsciiQuotes | backend/server.js:166 | the stripped text is the slice between the leading and the trailing runs of `"`, `'` and backquote: what is removed is such quotes, and the result neither starts nor ends with one |
| ScriptText.CleanRawText | backend/server.js:162-168 | `cleanRawText` yields trimmed text, and the empty text for a missing or empty input |
| ScriptText.CleanRawTextChars | backend/server.js:162-168 | `cleanRawText` adds no characters |
| ScriptText.CleanRawTextClean | backend/server.js:162-168 | an already trimmed text without quotes at its ends is unchanged |
| ScriptText.CleanRawKeepsInnerQuote | backend/server.js:165-167 | a quote behind a space survives: `" "a` cleans to `"a`, against the comment at :165 |
| Marks.Insert | backend/server.js:128 | inserting a mark adds exactly that mark |
| Marks.InsertSorted | backend/server.js:128 | inserting into a sorted list keeps it sorted |
| Marks.SortByPosition | backend/server.js:128 | the sort is sorted by position and a permutation of its input |
| Marks.SortStable | backend/server.js:128 | the sort is stable: marks at any one position keep their order |
| Marks.SortSorted | backend/server.js:128 | a sorted list is left as it is |
| Marks.CountKind | backend/server.js:128 | a kind's count is bounded by the length |
| Marks.SortCountKind | backend/server.js:128 | sorting keeps each kind's count |
| Delimited.NextFrom | backend/server.js:61 | finds the first occurrence of a character at or after a position, or the end |
| Delimited.MatchAt | backend/server.js:61 | a match at a position starts there, spans at least three characters and stays within the text |
| Delimited.MatchAtShape | frontend/src/App.tsx:1197 | a match is the opening character, a non-empty run without the closing one, and the closing one; there is a match exactly when that shape is present |
| Delimited.FirstMatchFrom | backend/server.js:64 | the next match found by `exec` is a match at or after the position |
| Delimited.FirstMatchLeftmost | backend/server.js:64 | no match starts before the one found |
| Delimited.MatchesOrdered | backend/server.js:64-70 | the `exec` loop's matches are in order, do not overlap, and each is the first match from its start; the loop resumes at each match's end |
| Delimited.RewriteChars | frontend/src/App.tsx:1197 | the rewrite adds no characters besides its prefix and suffix |
| Delimited.FirstMatchRewrite | frontend/src/App.tsx:1197 | `*x*` after plain text becomes `[x]` (in general, prefix, inner text, suffix) and the scan resumes after it |
| Delimited.RewritePrefix | backend/server.js:75-88 | the rewritten text, from the k-th match's shifted start on, is the rewrite from that match |
| Delimited.MatchInRewrite | backend/server.js:75-88 | the k-th rewritten piece sits at the k-th match's start shifted by k times the change in length |
| Delimited.RewriteCount | backend/server.js:84-86 | unwrapping keeps the count of every character other than the delimiters |
| Delimited.RewriteNoOpen | frontend/src/App.tsx:1206 | without the opening character there is no match and the text is unchanged |
| ScriptParser.CollectEmphasis | backend/server.js:61-70 | the `exec` loop collects exactly the leftmost non-overlapping emphasis matches |
| ScriptParser.EmphasisMarks | backend/server.js:75-82 | one emphasis mark per match |
| ScriptParser.UnwrapStep | backend/server.js:84-86 | one splice unwraps the match in place and leaves the text before it alone |
| ScriptParser.EmphasisMarksNext | backend/server.js:75-82 | the reverse loop's next mark has position index minus two per later match, and the inner text |
| ScriptParser.UnwrapEmphasis | backend/server.js:73-89 | the reverse loop ends with every match unwrapped and the marks of the specification, in loop order |
| ScriptParser.PositionsFrom | backend/server.js:98-112 | one recorded position per occurrence of the symbol |
| ScriptParser.DeleteFirst | backend/server.js:107 | deleting the first occurrence records its index and leaves the positions of the rest |
| ScriptParser.ControlMarks | backend/server.js:100-104 | one control mark per recorded position |
| ScriptParser.StripStep | backend/server.js:99-110 | one `indexOf`/delete step keeps the loop's invariant and shortens the text |
| ScriptParser.StripSymbol | backend/server.js:98-112 | the control-symbol loop removes every occurrence and records one mark per occurrence at its position in the remaining text |
| ScriptParser.CountHan | backend/server.js:123 | the Han count is bounded by the length |
| ScriptParser.DurationHint | backend/server.js:124 | the hint is the least number of at least 5 that covers the Han count at 5 per second |
| ScriptParser.ParseParagraph | backend/server.js:32-137 | the paragraph loop body yields the specified segment |
| ScriptParser.MapIndexed | backend/server.js:32-33 | indexed mapping keeps the length |
| ScriptParser.Segments | backend/server.js:32-33 | one segment per paragraph |
| ScriptParser.SegmentAt | backend/server.js:32-33 | the i-th segment is the parse of the i-th paragraph with index i |
| ScriptParser.TotalDurationSnoc | backend/server.js:125 | the running total grows by each segment's hint |
| ScriptParser.ParseParagraphs | backend/server.js:29-138 | the `forEach` loop yields the segments and their total duration |
| ScriptParser.ParseScriptText | backend/server.js:25-153 | `parseScriptText` yields the specified document |
| ParserProperties.SegmentIdentity | backend/server.js:130-133 | a segment's id is `s` and its one-based index, and its role is `narrator` |
| ParserProperties.SegmentIdsDistinct | backend/server.js:33 | segment ids are distinct |
| ParserProperties.SectionNonEmpty | backend/server.js:45-53 | every segment has a section, `段落 n` when the paragraph has no heading |
| ParserProperties.TotalDurationLower | backend/server.js:124-125 | the total is at least 5 per segment |
| ParserProperties.DocumentShape | backend/server.js:140-152 | the document has one segment per paragraph, each the paragraph's parse, a matching count and total, and the given timestamp |
| ParserProperties.BlankDocument | backend/server.js:27-30 | an all-whitespace script gives no segments and zero metadata |
| ParserProperties.RawTextClean | backend/server.js:98-120 | `raw_text` is trimmed and single-spaced, and holds no `|`, `↑` or `↓` and no whitespace but spaces |
| ParserProperties.DurationCovers | backend/server.js:123-124 | a segment's hint is at least 5 and covers its Han characters at 5 per second |
| ParserProperties.PushedCounts | backend/server.js:64-112 | one emphasis mark per match, one short pause per `|`, one rise per `↑`, one fall per `↓`, and no long pause |
| ParserProperties.SymbolCounts | backend/server.js:84-86 | each symbol's count survives the earlier passes |
| ParserProperties.SegmentMarkCounts | backend/server.js:56-136 | the segment's marks have those counts |
| ParserProperties.SegmentMarksOrdered | backend/server.js:128 | the segment's marks are sorted by position, a permutation of those recorded, with ties in recording order |
| ParserProperties.SymbolPosition | backend/server.js:99-110 | an occurrence is recorded at its index among the characters other than the symbol |
| ParserProperties.DoubleSymbol | backend/server.js:98-112 | a doubled symbol gives two marks at the same position |
| ParserProperties.DoubleBarIsTwoPauses | backend/server.js:98-112 | `||` gives two short pauses at one position |
| ParserProperties.EmphasisRecorded | backend/server.js:73-82 | the k-th match's mark has the index minus two per later match, and the match's text |
| ParserProperties.EmphasisTextAt | backend/server.js:84-86 | the k-th match's text sits in the unwrapped body at its index minus two per earlier match |
| ParserProperties.EmphasisPosition | backend/server.js:75 | the recorded position is where the text sits exactly when the match is the middle one |
| ParserProperties.OneSpanExample | backend/server.js:61-89 | `这是*重点*内容` gives `这是重点内容` and one mark at 2 with text `重点` |
| ParserProperties.ThreeSpansExample | backend/server.js:73-89 | `*a**b**c*` gives `abc` and marks at 6, 1 and -4 |
| ParserProperties.EmptySpanKeptExample | backend/server.js:61 | `**` is no match: `a**b` is kept as it is |
| KlingMapper.RoleNameInjective | backend/utils/mapToKling.js:6-19 | distinct scene roles have distinct names |
| KlingMapper.HintTablesCover | backend/utils/mapToKling.js:128-130 | every role has a non-empty camera, action and emotion hint, so no fallback is used |
| KlingMapper.DropNumeral | backend/utils/mapToKling.js:72 | after a leading numeral, the result is the rest of the text from the end of the whitespace run that follows it; what is dropped after the numeral is whitespace; text without a leading numeral is unchanged |
| KlingMapper.DropNumeralExample | backend/utils/mapToKling.js:72 | `① 留人（约3秒）` loses its numeral and the space after it |
| KlingMapper.DropFirstParenGroup | backend/utils/mapToKling.js:73 | with an opening parenthesis followed by a closing one, exactly the text from the first opening parenthesis through the next closing one and the whitespace run after it is removed, and the rest, later groups included, is kept; otherwise the text is unchanged |
| KlingMapper.ParenExample | backend/utils/mapToKling.js:73 | `留人（约3秒）` becomes `留人` |
| KlingMapper.ParenTwoGroupsExample | backend/utils/mapToKling.js:73 | the replace is not global: `甲（1） 乙（2）` becomes `甲乙（2）` |
| KlingMapper.NormalizeSection | backend/utils/mapToKling.js:71-75 | the cleaned section name is trimmed |
| KlingMapper.NormalizeSectionSingleSpaced | backend/utils/mapToKling.js:71-75 | the cleaned section name is single-spaced |
| KlingMapper.NormalizePlain | backend/utils/mapToKling.js:71-75 | a plain name is unchanged |
| KlingMapper.FirstKeyword | backend/utils/mapToKling.js:77-81 | the loop finds the first table keyword the name contains, or reports that it contains none |
| KlingMapper.OrderExample | backend/utils/mapToKling.js:77-81 | `讲痛点和价值` names both but classifies by the earlier entry, value proposition |
| KlingMapper.HookExample | backend/utils/mapToKling.js:71-80 | `① 留人（约3秒）` cleans to `留人` and is a hook |
| KlingMapper.ExtractSceneRoleSpec | backend/utils/mapToKling.js:67-84 | the role is general exactly when the name is empty or holds no keyword; otherwise it is the role of the first keyword held |
| KlingMapper.Quote | backend/utils/mapToKling.js:119 | the quoted text is the first 50 characters of `raw_text` |
| KlingMapper.GeneratePrompt | backend/utils/mapToKling.js:89-120 | the prompt starts with the presenter template and ends with `的表情，明亮的灯光，9:16竖屏格式。台词："`, the quote and `..."}` |
| KlingMapper.PromptDescriptions | backend/utils/mapToKling.js:89-132 | a segment's prompt renders the emotion as `，neutral的表情` exactly for pain-point and general sections, and a general section's action as `，自然手势` |
| KlingMapper.EmotionDescription | backend/utils/mapToKling.js:108-117 | the emotion falls back to neutral exactly for the pain-point and general roles |
| KlingMapper.ActionDescription | backend/utils/mapToKling.js:96-106 | the action falls back to natural gestures exactly for the general role |
| KlingMapper.CameraDescription | backend/utils/mapToKling.js:90-94 | every role's camera hint has a description |
| KlingMapper.ConvertScriptToKling | backend/utils/mapToKling.js:125-155 | one shot per segment, the document's total duration, and the fixed model, mode, ratio and style |
| KlingMapper.ShotAt | backend/utils/mapToKling.js:126-140 | each shot has id `shot_n`, the segment's prompt and duration, a static camera and no reference images |
| KlingMapper.ShotIdsDistinct | backend/utils/mapToKling.js:135 | shot ids are distinct |
| KlingMapper.EmptyDocument | backend/utils/mapToKling.js:126 | no segments give no shots |
| KlingMapper.ShotsDurationMatches | backend/utils/mapToKling.js:146 | the shots' durations sum to the segments' total |
| KlingMapper.ParsedDuration | backend/utils/mapToKling.js:146 | for a parsed script, the request's duration is the sum of its shots' durations |
| ExportRoutes.MissingContentIsBlank | backend/server.js:186 | the guard rejects exactly absent and all-whitespace content |
| ExportRoutes.ExportJson | backend/server.js:183-201 | 400 with the route's message exactly for blank content; otherwise the parsed document, which has segments |
| ExportRoutes.NonBlankHasSegments | backend/server.js:192-194 | content that passes the guard parses to at least one segment |
| ExportRoutes.ExportKling | backend/server.js:204-223 | 400 exactly for blank content; otherwise the conversion of the document the JSON route gives |
| ExportRoutes.ExportKlingShots | backend/server.js:213-216 | an accepted request has one shot per segment, at least one, and the shots' total duration |
| ExportRoutes.ReplaceMarks | backend/server.js:240-248 | the rewrite adds only the mark symbols and leaves a line without `[` unchanged |
| ExportRoutes.SymbolRule | backend/server.js:242-247 | a rule does nothing to a line without `[` |
| ExportRoutes.ReplaceMarksOneGloss | backend/server.js:240-248 | a single gloss becomes its symbol and nothing else changes |
| EditorText.SuggestionAt | frontend/src/App.tsx:1207 | a suggestion match is the prefix, a run without `)` or line breaks, and `)` |
| EditorText.DeleteSuggestions | frontend/src/App.tsx:1207 | deleting suggestions adds no characters |
| EditorText.DeleteSuggestionsPlain | frontend/src/App.tsx:1207 | text without `(` is unchanged |
| EditorText.DeleteSuggestionsDeletes | frontend/src/App.tsx:1207 | a suggestion after plain text is deleted and the scan goes on after it |
| EditorText.CapNewlines | frontend/src/App.tsx:1210 | capping newline runs adds no characters |
| EditorText.CapNewlinesRun | frontend/src/App.tsx:1210 | a leading run of three or more newlines becomes two; shorter runs stay |
| EditorText.CapNewlinesNoTriple | frontend/src/App.tsx:1210 | no three newlines in a row remain |
| EditorText.CollapseBlanks | frontend/src/App.tsx:1211 | collapsing blanks leaves no tabs and adds only spaces |
| EditorText.CollapseBlanksSingle | frontend/src/App.tsx:1211 | no two blanks in a row remain |
| EditorText.CollapseBlanksNoTriple | frontend/src/App.tsx:1211 | collapsing blanks creates no triple newline |
| EditorText.LongPauseRuleInert | frontend/src/App.tsx:1191-1194 | the `||` rule runs after every `|` is gone and never changes the text |
| EditorText.GlossesHaveNoBar | frontend/src/App.tsx:1191-1206 | no `|` survives the mark rewrites |
| EditorText.GlossShortPause | frontend/src/App.tsx:1191-1206 | between unmarked text, `|` becomes ` [短停] ` |
| EditorText.GlossStress | frontend/src/App.tsx:1191-1206 | between unmarked text, `*x*` with a non-empty `x` becomes `[x]` |
| EditorText.GlossRise | frontend/src/App.tsx:1191-1206 | between unmarked text, `↑` becomes ` [上扬]` |
| EditorText.GlossFall | frontend/src/App.tsx:1191-1206 | between unmarked text, `↓` becomes ` [收尾]` |
| EditorText.GlossFlag | frontend/src/App.tsx:1191-1206 | between unmarked text, `【x】` with a non-empty `x` becomes `x` |
| EditorText.UnmarkedSteps | frontend/src/App.tsx:1194-1206 | the mark rewrites leave unmarked text as it is |
| EditorText.LayoutKeepsClean | frontend/src/App.tsx:1207-1213 | the clean-up leaves a trimmed text without `(`, tabs, double blanks or triple newlines as it is |
| EditorText.CapNewlinesPlain | frontend/src/App.tsx:1210 | capping newlines changes nothing without three adjacent newlines |
| EditorText.CollapseBlanksPlain | frontend/src/App.tsx:1211 | collapsing blanks changes nothing without tabs or two adjacent blanks |
| EditorText.SerializeStress | frontend/src/App.tsx:1185-1214 | a stressed word between unmarked text is exported in brackets when the clean-up has nothing to do |
| EditorText.SerializeShortPause | frontend/src/App.tsx:1185-1214 | a bar between unmarked text is exported as ` [短停] ` when the clean-up has nothing to do |
| EditorText.SerializeExample | frontend/src/App.tsx:1185-1214 | `a*b*c` is exported as `a[b]c` |
| EditorText.SerializeForWordClean | frontend/src/App.tsx:1185-1214 | the Word text is empty for empty input, trimmed, free of double blanks, triple newlines, tabs and `|` |
| EditorText.ClearMarks | frontend/src/App.tsx:1180 | no mark character remains |
| EditorText.ClearMarksDrops | frontend/src/App.tsx:1180 | a mark character anywhere makes no difference |
| EditorText.ClearMarksKeepsPlain | frontend/src/App.tsx:1180 | text without marks or suggestions is unchanged |
| EditorText.SpeechPauses | frontend/src/paste.tsx:413-414 | the pause rules leave no `|` and add only `。` and `，` |
| EditorText.PausesLong | frontend/src/paste.tsx:413 | `||` becomes `。` |
| EditorText.LoneBarKept | frontend/src/paste.tsx:413 | the `||` rule leaves a lone `|` alone |
| EditorText.LoneBarComma | frontend/src/paste.tsx:414 | a lone `|` becomes `，` |
| EditorText.PausesShort | frontend/src/paste.tsx:413-414 | `|` becomes `，` |
| EditorText.SpeechDeletions | frontend/src/paste.tsx:415-419 | stress, intonation and flag characters are deleted |
| EditorText.SpeechDeletionsInert | frontend/src/paste.tsx:415-419 | text without marks is unchanged |
| EditorText.SpeechText | frontend/src/paste.tsx:410-419 | nothing is spoken for empty text; otherwise the spoken text holds no mark character |
| EditorText.SpeechLongPause | frontend/src/paste.tsx:412-419 | a long pause between plain texts is spoken as `。` |
| EditorText.SpeechShortPause | frontend/src/paste.tsx:412-419 | a short pause between plain texts is spoken as `，` |
| EditorText.InsertMark | frontend/src/App.tsx:1436-1455 | the text before the selection and the text after it are kept |
| EditorText.InsertPlainMark | frontend/src/App.tsx:1448-1451 | a pause or intonation mark replaces the selection and the caret follows it |
| EditorText.InsertStress | frontend/src/App.tsx:1444-1447 | the stress button inserts `**`, wraps the selection, or unwraps one that starts with `*`, with the caret in each case |
| EditorText.StressRoundTrip | frontend/src/App.tsx:1446 | stressing a selection and pressing again on the result gives back the text and the caret |
| Subtitles.ClockOf | frontend/src/App.tsx:1349-1353 | hours, minutes, seconds and milliseconds within their ranges that add up to the time |
| Subtitles.ClockArith | frontend/src/App.tsx:1350-1353 | the `Math.floor` and `%` fields are within range and recompose the time |
| Subtitles.FormatSrtTimeRoundTrip | frontend/src/App.tsx:1348-1356 | the rendered time has the SRT shape, its fields read back to the time, and it is 12 characters exactly below 100 hours |
| Subtitles.HoursWidth | frontend/src/App.tsx:1354-1355 | hours are at least two digits, exactly two below 100, and read back to the hours |
| Subtitles.PadLength | frontend/src/App.tsx:1354 | a number below `10^len`, padded to `len`, is `len` digits that read back to it |
| Subtitles.SrtFields | frontend/src/App.tsx:1355 | the template of four digit fields has the SRT shape and reads back to them |
| Subtitles.Blocks | frontend/src/App.tsx:1359-1364 | one block per subtitle, in order; block i opens with the number i + 1 on its own line and ends with a line break |
| Subtitles.ToSrtEmpty | frontend/src/App.tsx:1358-1365 | no subtitles give the empty file |
| Subtitles.ToSrtSnoc | frontend/src/App.tsx:1358-1365 | a subtitle added at the end adds its block after a blank line |
| Subtitles.BlockNumber | frontend/src/App.tsx:1363 | a block begins with its one-based number on its own line and ends with a newline |
| Subtitles.BlockOfShape | frontend/src/App.tsx:1363 | a block is the number line, then the line `start --> end`, then the text line, each ended by a newline |
| Subtitles.ZeroStartFallsBack | frontend/src/App.tsx:1360 | `0` is falsy: a subtitle starting at zero takes `startTime`, and without one its start prints as `NaN:NaN:NaN,NaN` |
| Subtitles.EmptyTextLine | frontend/src/App.tsx:1362 | a subtitle with neither a non-empty `text` nor a non-empty `content` has an empty text line |
| Subscription.UsedOnlyDropsOnResetOrStatus | frontend/src/store/subscriptionSlice.js:16-33 | only a reset or a new status lowers the credits used |
| Subscription.UsedMonotone | frontend/src/store/subscriptionSlice.js:26-30 | without resets or new statuses, the credits used never go down |
| Subscription.IncrementsUncapped | frontend/src/store/subscriptionSlice.js:26-30 | a free user's count goes up by one per increment without a cap; a paid user's state is unchanged |
| Subscription.PastTheLimit | frontend/src/store/subscriptionSlice.js:26-30 | eleven uses from the initial state pass the limit of ten |
| Subscription.StatusLimit | frontend/src/store/subscriptionSlice.js:23 | the new limit is the given one unless it is absent or zero, then unlimited for paid users and ten for free ones |
| Subscription.StatusFields | frontend/src/store/subscriptionSlice.js:16-25 | a new status clears the error, keeps the loading flag, and takes the plan fields and the count (0 when absent) |
| Subscription.OwnFieldOnly | frontend/src/store/subscriptionSlice.js:31-39 | reset, loading and error actions change only their own field; a second reset changes nothing |
| Subscription.SubscriptionState.constructor | frontend/src/store/subscriptionSlice.js:5-14 | the initial state: free, nothing used, a limit of ten, not loading, no error |
| Subscription.SubscriptionState.SetSubscriptionStatus | frontend/src/store/subscriptionSlice.js:16-25 | the state becomes the status transition of the old state |
| Subscription.SubscriptionState.IncrementCreditsUsed | frontend/src/store/subscriptionSlice.js:26-30 | one more credit used for a free user, none for a paid one |
| Subscription.SubscriptionState.ResetDailyCredits | frontend/src/store/subscriptionSlice.js:31-33 | credits used become zero and nothing else changes |
| Subscription.SubscriptionState.SetLoading | frontend/src/store/subscriptionSlice.js:34-36 | only the loading flag changes |
| Subscription.SubscriptionState.SetError | frontend/src/store/subscriptionSlice.js:37-39 | only the error changes |

`frontend/src/paste.tsx` holds the same `clearMarks` (line 649),
`serializeForWord` (lines 653-673) and `insertMark` (lines 817-834) as
`frontend/src/App.tsx`. The `EditorText` members model both copies.

## Left out

- **String length.** JavaScript indexes strings in UTF-16 code units; the
  model indexes characters. The two agree on every character of the Basic
  Multilingual Plane, which holds the numerals, marks, quotes and Han
  characters the code handles. Positions and the 50-character quote differ
  for text with characters outside it.
- **Clock.** `createdAt` (`new Date().toISOString()`) is a parameter of the
  parse.
- **Framework and I/O.** Express routing, JSON bodies, logging, the `docx`
  Word document builder and file download are left out. So are
  `routes/paddle.js` (payments), the UI components, the AI calls of the
  editor, banned-word highlighting and the test and integration scripts.
- **ExportJson and ExportKling: the 500 answers.** The `catch` branches
  (`backend/server.js:195-200` and `:217-222`) are unreachable in the model,
  because parsing and conversion are total functions here.
- **ExportJson and ExportKling: `content`.** It is a string or absent;
  other JSON values are not modelled.
- **FormatSrtTimeRoundTrip.** Times are whole milliseconds, the value
  `Math.floor(seconds * 1000)` starts from. Floating point, negative times
  and `NaN` are not modelled, except that an absent time renders every
  field as `NaN`.
- **ToSrt.** It takes the subtitle list as given; how the editor builds
  that list is not part of this model.
- **InsertMark.** It requires the selection `s <= e <= |txt|`, as a textarea
  selection always is. The tool is one of the five toolbar buttons.
- **Subscription.** `Infinity` is the constructor `Unlimited`, and `isPro`
  is a boolean. The components that dispatch the actions are not part of
  this model.
- **ScriptText.CleanSegmentText:** the comment promises no leading or
  trailing quote in `raw_text`; the code does not keep that promise
  (`ScriptText.CleanKeepsInnerQuote`), so no such property is stated.
- **ScriptText.CleanRawText:** the comments at `backend/server.js:158` and
  `:165` promise that the outer quotes are removed; the code strips one run
  of quotes at each end and then trims, so a quote behind a space stays
  (`ScriptText.CleanRawKeepsInnerQuote`: `" "a` gives `"a`). No
  quote-free-ends property is stated of it.
- **SerializeForWordClean:** it does not state that `[长停]` never appears.
  A user who types `[长停]` keeps it. The model proves instead that the
  `||` rule never changes the text (`EditorText.LongPauseRuleInert`).
