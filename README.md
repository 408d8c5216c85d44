# insertimagelegend: a verified model of `analyzeDocument`

This project is a Dafny model of `analyzeDocument`, the analysis routine of the Word add-in in
`src/insertimagelegend/insertimagelegend.js`. The routine takes the WordprocessingML body of a
document (its OOXML) after parsing and returns four things:

- **`imageCount`**: the number of `w:drawing` elements plus the number of `w:pict` elements.
- **`captions`**: every paragraph whose trimmed text matches `/^Figure\s+\d+\s*[:\-–]?/i`. Each
  caption records the paragraph's text, its index among all `w:p` elements, and whether its first
  `w:pPr`/`w:jc` says `center`.
- **`listNodeIndex`**: the paragraph that holds the list of figures, or -1. Three strategies are
  tried in a fixed order:
  1. A `w:instrText` field instruction that names a table of contents or a list of figures.
  2. Failing that, a `w:fldSimple` element whose instruction names one.
  3. Failing that, the first paragraph that looks like a row of such a list.
- **`listEntries`**: the entries collected from the paragraphs after that one. Each entry records
  the paragraph's text and whether it holds a `w:hyperlink`.

When the parser reports the markup as malformed (a `parsererror` element in the tree), the routine
fails. Its message is `Erreur lors de l'analyse OOXML: ` followed by the `textContent` of the first
`parsererror` element.

The project has four modules:

- **`Chars`** (`chars.dfy`) holds ECMAScript character classes, greedy runs, `trim` and
  ASCII-case-insensitive matching.
- **`Patterns`** (`patterns.dfy`) holds the routine's regular expressions. Each one that can
  backtrack is written twice: as a greedy scan, and as the regex's own "some split matches"
  meaning. The two are proved equal.
- **`Dom`** (`dom.dfy`) holds the parsed tree and the DOM operations the routine uses:
  `getElementsByTagName`, `textContent` and `getAttribute`. A node is identified by its path of
  child indices, which gives node identity (`===`) and `parentNode`.
- **`Analyzer`** (`analyzer.dfy`) models `getParagraphText`, `findParagraphIndexFromNode` and each
  block of `analyzeDocument`. Each block is an imperative method with the source's loops, proved
  equal to a specification function. The properties the add-in relies on are lemmas about those
  functions.

Caption detection and entry collection are specified over a paragraph test passed as a parameter.
Their lemmas therefore hold for any test. The routine instantiates them with `IsCaptionText` and
`IsListEntry`.

The entry cap keeps up to 201 entries, not 200. The collector tests `listEntries.length > 200`
only after it pushes an entry, so the loop stops once the 201st entry is in. The model keeps this
behaviour (`Analyzer.EntryIndicesCap`, `Analyzer.ListEntriesShape`).

## Model

| member | source | states |
|---|---|---|
| Chars.RunFromSpec | src/insertimagelegend/insertimagelegend.js:69 | a greedy `P*` run from i is all P, and it ends at the end of the text or at a non-P character |
| Chars.RunBeforeSpec | src/insertimagelegend/insertimagelegend.js:144 | a greedy run ending at j is all P, and it starts at 0 or just after a non-P character |
| Chars.RunFromExact | src/insertimagelegend/insertimagelegend.js:131 | any all-P run that cannot be extended to the right is exactly the greedy run |
| Chars.RunBeforeExact | src/insertimagelegend/insertimagelegend.js:144 | any all-P run that cannot be extended to the left is exactly the greedy run |
| Chars.TrimSpec | src/insertimagelegend/insertimagelegend.js:44 | `trim` yields "" exactly when the text is all whitespace; otherwise the result neither starts nor ends with whitespace, and it is an infix of the text with only whitespace removed on both sides |
| Chars.MatchAtCIMeaning | src/insertimagelegend/insertimagelegend.js:144 | a case-insensitive match at i holds exactly when every character lower-cases to the word's character |
| Chars.ContainsCIMeaning | src/insertimagelegend/insertimagelegend.js:144 | `toLowerCase().includes(w)` holds exactly when a case-insensitive match exists at some position |
| Chars.ContainsCIFromMeaning | src/insertimagelegend/insertimagelegend.js:107 | the left-to-right search from i succeeds exactly when a match exists at or after i |
| Chars.LoweredInfix | src/insertimagelegend/insertimagelegend.js:144 | the lower-cased text holds w at position i exactly when the case-insensitive match holds there |
| Chars.ContainsCIIsLoweredIncludes | src/insertimagelegend/insertimagelegend.js:144 | `txt.toLowerCase().includes(w)` holds exactly when the case-insensitive search finds w |
| Chars.LowerStrEquals | src/insertimagelegend/insertimagelegend.js:80 | `v.toLowerCase() === w` holds exactly when v has the length of w and matches it case-insensitively |
| Patterns.CaptionTextIsCaptionRegex | src/insertimagelegend/insertimagelegend.js:69 | the greedy caption scan accepts exactly the texts the caption regex matches: "figure" in any case, then whitespace, then digits |
| Patterns.FigureNumberFromMeaning | src/insertimagelegend/insertimagelegend.js:131 | the scan for `\bFigure\s*\d+\b` from i succeeds exactly when the greedy test succeeds at some position at or after i |
| Patterns.FigureNumberAtIsRegex | src/insertimagelegend/insertimagelegend.js:131 | a successful greedy test at one position is a match of `/\bFigure\s*\d+\b/i` |
| Patterns.RegexIsFigureNumberAt | src/insertimagelegend/insertimagelegend.js:131 | wherever the regex can match, the greedy test at the same "figure" succeeds, because greedy runs cannot overshoot |
| Patterns.HasFigureNumberIsFigureNumberRegex | src/insertimagelegend/insertimagelegend.js:131 | the row scan accepts exactly the texts `/\bFigure\s*\d+\b/i` matches |
| Patterns.EndsWithPageNumberIsPageNumberRegex | src/insertimagelegend/insertimagelegend.js:131 | the backward scan accepts exactly the texts `/\s\d+$/` matches |
| Patterns.DotLeaderFromMeaning | src/insertimagelegend/insertimagelegend.js:131 | the scan from i finds three dots in a row exactly when they occur at or after i |
| Patterns.HasDotLeaderMeaning | src/insertimagelegend/insertimagelegend.js:144 | `/\.{3,}/` matches exactly when three consecutive dots occur somewhere |
| Patterns.TocFromMeaning | src/insertimagelegend/insertimagelegend.js:107 | the scan from i finds "toc" followed by a word boundary exactly when it occurs at or after i |
| Patterns.HasTocWordMeaning | src/insertimagelegend/insertimagelegend.js:118 | `/TOC\b/i` matches exactly when "toc" in any case occurs followed by a non-word character or the end |
| Patterns.ListRowIsListEntry | src/insertimagelegend/insertimagelegend.js:131 | every paragraph that strategy 3 would pick as the list's row also passes the entry test of line 144 |
| Dom.PrefixValid | src/insertimagelegend/insertimagelegend.js:95 | every ancestor reached by `parentNode` below the document node is a node of the tree |
| Dom.TagPaths | src/insertimagelegend/insertimagelegend.js:66 | every path `getElementsByTagName` lists leads to an element with that exact name |
| Dom.ElementsByTagName | src/insertimagelegend/insertimagelegend.js:41 | every listed node is an element named t below the start node |
| Dom.TagPathsComplete | src/insertimagelegend/insertimagelegend.js:66 | every element named t below the start node is listed |
| Dom.TagPathsExact | src/insertimagelegend/insertimagelegend.js:55 | a node is listed exactly when it is an element named t |
| Dom.TagPathsInDocumentOrder | src/insertimagelegend/insertimagelegend.js:66 | the list is in strict document order, so each element appears once, ancestors before descendants and earlier siblings before later ones |
| Dom.OwnPartInDocumentOrder | src/insertimagelegend/insertimagelegend.js:66 | within one child's subtree, the child comes first and the rest follows in document order |
| Dom.TagPathsCount | src/insertimagelegend/insertimagelegend.js:55-56 | the list's `length` equals an independent count of the elements named t in the tree |
| Analyzer.ParagraphTextTrimmed | src/insertimagelegend/insertimagelegend.js:39-45 | a paragraph's text neither starts nor ends with whitespace, and it is empty when the paragraph has no `w:t` |
| Analyzer.GetParagraphText | src/insertimagelegend/insertimagelegend.js:39-45 | the loop concatenates the `textContent` of the `w:t` descendants in document order, then trims |
| Analyzer.FirstElementNone | src/insertimagelegend/insertimagelegend.js:77-79 | `getElementsByTagName(t)[0]` is undefined exactly when no element named t lies below the node |
| Analyzer.FirstElementIsFirst | src/insertimagelegend/insertimagelegend.js:77-79 | when defined, `getElementsByTagName(t)[0]` is the element named t that comes before every other one in document order |
| Analyzer.CenteredMeaning | src/insertimagelegend/insertimagelegend.js:76-81 | a paragraph is centered exactly when its first `w:pPr` has a first `w:jc` whose `w:val` is present and lower-cases to `center` |
| Analyzer.ParaInfoAt | src/insertimagelegend/insertimagelegend.js:72-73 | entry i of the per-paragraph data is the text, centering and hyperlink flag of paragraph i |
| Analyzer.CountImages | src/insertimagelegend/insertimagelegend.js:60-63 | the image count is the number of `w:drawing` elements plus the number of `w:pict` elements in the tree |
| Analyzer.CaptionOfParagraph | src/insertimagelegend/insertimagelegend.js:72-83 | one paragraph yields one caption, with its text, centering and index, exactly when its text matches the caption pattern |
| Analyzer.CaptionAt | src/insertimagelegend/insertimagelegend.js:71-83 | paragraph i of the document yields the caption its data calls for |
| Analyzer.ScanParagraph | src/insertimagelegend/insertimagelegend.js:71-83 | one pass of the caption loop turns the captions of the first i paragraphs into those of the first i + 1 |
| Analyzer.DetectCaptions | src/insertimagelegend/insertimagelegend.js:68-84 | the loop pushes, in paragraph order, one caption per paragraph whose text matches the caption pattern |
| Analyzer.CaptionsSound | src/insertimagelegend/insertimagelegend.js:71-83 | each caption names a paragraph that passes the test, with that paragraph's text and centering, and indices strictly increase |
| Analyzer.CaptionsComplete | src/insertimagelegend/insertimagelegend.js:71-83 | every paragraph that passes the test is reported as a caption |
| Analyzer.DocumentCaptions | src/insertimagelegend/insertimagelegend.js:68-84 | a document's captions are exactly its caption-pattern paragraphs, each once and in order, with their text and centering |
| Analyzer.OwningParagraphIsNearest | src/insertimagelegend/insertimagelegend.js:94-96 | the upward walk stops at the nearest enclosing node named `w:p` in any case; when it finds none, no ancestor is a paragraph |
| Analyzer.ParagraphNameMeaning | src/insertimagelegend/insertimagelegend.js:95 | the walk-up stops at a node exactly when it is an element whose name is `w:p` in any case |
| Analyzer.IndexOf | src/insertimagelegend/insertimagelegend.js:97-100 | returns the first index holding the node, or -1 exactly when the node is not in the list |
| Analyzer.OwnerIndex | src/insertimagelegend/insertimagelegend.js:93-101 | the result is -1 or a valid paragraph index |
| Analyzer.FindParagraphIndexFromNode | src/insertimagelegend/insertimagelegend.js:93-101 | the walk-up loop and the identity search return the index of the nearest enclosing paragraph, or -1 |
| Analyzer.FirstWhere | src/insertimagelegend/insertimagelegend.js:105-111 | returns the first index at or after i whose string passes the test, with no earlier index passing; returns -1 only when none passes |
| Analyzer.InstrTexts | src/insertimagelegend/insertimagelegend.js:104-106 | there is one trimmed instruction per `w:instrText` node |
| Analyzer.FieldInstrs | src/insertimagelegend/insertimagelegend.js:115-117 | there is one instruction string per `w:fldSimple` node |
| Analyzer.FieldLocation | src/insertimagelegend/insertimagelegend.js:105-122 | the first field naming a list decides; the result is its owner's index or -1, and always a valid paragraph index or -1 |
| Analyzer.ListLocation | src/insertimagelegend/insertimagelegend.js:103-136 | the three strategies in their fixed order give -1 or a valid paragraph index |
| Analyzer.LocateByInstrText | src/insertimagelegend/insertimagelegend.js:104-111 | strategy 1's loop stops at the first `w:instrText` naming a list, even when that node has no owning paragraph |
| Analyzer.LocateByFldSimple | src/insertimagelegend/insertimagelegend.js:114-123 | strategy 2's loop stops at the first `w:fldSimple` whose `w:instr`, or else `instr`, names a list |
| Analyzer.LocateByRow | src/insertimagelegend/insertimagelegend.js:126-136 | strategy 3's loop finds the first paragraph that looks like a row of a list of figures |
| Analyzer.LocateList | src/insertimagelegend/insertimagelegend.js:103-136 | the block returns what the three strategies give in order |
| Analyzer.ListLocationJustified | src/insertimagelegend/insertimagelegend.js:103-136 | a reported paragraph owns a list field or looks like a row; -1 means no paragraph looks like a row |
| Analyzer.FieldLocationOwns | src/insertimagelegend/insertimagelegend.js:105-122 | a field strategy reports only the owner of a node whose instruction names a list |
| Analyzer.EntryIndices | src/insertimagelegend/insertimagelegend.js:140-155 | every paragraph the collector accepts lies after the starting point |
| Analyzer.CollectIsEntriesAt | src/insertimagelegend/insertimagelegend.js:140-155 | the loop's state (entries so far, next paragraph) ends with exactly the entries of the paragraphs the collector accepts |
| Analyzer.EntryOfParagraph | src/insertimagelegend/insertimagelegend.js:141-147 | one paragraph gives an entry exactly when its text passes the entry test; the entry holds the text and whether a `w:hyperlink` is present |
| Analyzer.EntryAt | src/insertimagelegend/insertimagelegend.js:141-147 | paragraph j of the document gives its text, and an entry exactly when that text passes the entry test |
| Analyzer.CollectFrom | src/insertimagelegend/insertimagelegend.js:140-155 | the collector loop ends in the state the loop-state recursion describes, stopping at an empty paragraph, a short non-entry or the 201st entry |
| Analyzer.CollectEntries | src/insertimagelegend/insertimagelegend.js:138-156 | the block returns the entries of the accepted paragraphs, or none when there is no list |
| Analyzer.EntryIndicesShape | src/insertimagelegend/insertimagelegend.js:140-155 | at most 201 entries, in strictly increasing paragraph order, each with non-empty text that passes the entry test |
| Analyzer.EntriesAtShape | src/insertimagelegend/insertimagelegend.js:140-155 | the entries built from the accepted paragraphs number at most 201, and each has non-empty text that passes the entry test |
| Analyzer.ListEntriesShape | src/insertimagelegend/insertimagelegend.js:138-156 | the reported entries number at most 201, and each has non-empty text accepted by line 144 |
| Analyzer.ListEntriesFromParagraphs | src/insertimagelegend/insertimagelegend.js:138-156 | with a list at paragraph n, entry k carries the text and hyperlink flag of a paragraph after n, and those paragraphs strictly increase |
| Analyzer.EntryIndicesStop | src/insertimagelegend/insertimagelegend.js:142-150 | collection halts at the first empty paragraph and at the first short non-entry: nothing at or after it is collected |
| Analyzer.EntryIndicesSkipOnlyNonEntries | src/insertimagelegend/insertimagelegend.js:143-151 | before the last collected entry, a paragraph is collected exactly when it passes the entry test, and a skipped one has at least two characters |
| Analyzer.EntryIndicesComplete | src/insertimagelegend/insertimagelegend.js:140-155 | below the cap, a non-empty paragraph that passes the entry test is collected when every paragraph before it since the start is non-empty and is an entry or at least two characters long |
| Analyzer.EntryIndicesCap | src/insertimagelegend/insertimagelegend.js:154 | when every paragraph passes, the collector takes all of them up to 201, because the cap is tested after the push |
| Analyzer.AnalyzeDocument | src/insertimagelegend/insertimagelegend.js:48-164 | the routine fails exactly when the tree holds a `parsererror`; otherwise the list location is -1 or a valid paragraph, there are no entries without a list, and there are at most 201 entries, each non-empty and accepted by the entry test |

## Left out

- Office start-up (`Office.initialize`, `Office.onReady`), `log`, the button handlers and
  everything after line 164 are user-interface glue and are not modelled.
- `getBodyOoxml` (`Word.run`, `getOoxml`, `context.sync`) and `DOMParser` are I/O and a foreign
  parser. The model starts from the parsed tree, given as a `Dom.Document`. A parse failure is the
  `parsererror` element the parser puts in the tree, as the routine itself detects it.
- Comments, processing instructions and attribute nodes are not in the tree. The routine only
  reaches elements and text, and CDATA sections are text nodes in the model.
- The `try`/`catch` that logs and rethrows becomes the `MalformedMarkup` result. Logging to the
  console is not modelled.
- Strings are sequences of Unicode code points. JavaScript's `length` counts UTF-16 code units,
  so in the `txt.length < 2` test (line 150) one astral character counts as 1 in the model but 2
  in the code.
- `toLowerCase` and the `/i` flag are modelled as ASCII case folding. They are only compared
  against fixed ASCII words ("figure", "center", "w:p", "toc", "tableof", …). No non-ASCII
  character folds onto one of those under `/i` without the `u` flag. Under `toLowerCase`, only
  U+0130 (to `i` and U+0307) and U+212A (to `k`) lower-case to ASCII letters. Neither can create
  a match of "figure", "center" or "w:p", so the comparisons keep their outcome. `Chars.LowerStr`
  is therefore not the full Unicode `toLowerCase`: it keeps the length, which `toLowerCase` does
  not for U+0130, and it leaves non-ASCII letters unchanged.
- The optional tail `\s*[:\-–]?` of the caption regex always matches the empty string. It cannot
  change what `test` returns and is not modelled.
- Analyzer.OwnerIndex: states only that the result is -1 or a valid index. Its meaning (the
  nearest enclosing paragraph's index) is stated by `Analyzer.OwningParagraphIsNearest` and
  `Analyzer.IndexOf`.
