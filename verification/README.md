# PDF quote helper: sentence mapping, click resolution, quote scoring and text cleanup

This project models the text core of a browser tool that shows a PDF,
lets the reader click on a sentence to copy it, and proposes quotes. The
model is written in Dafny. It covers:

- **Segmenter** — `splitIntoSentences` (main.js:291-297). It normalizes
  white space. It then cuts after every `。！？` when the text holds one,
  and otherwise at a space between `.`, `?` or `!` and an upper-case
  letter, a digit or an opening quote.
- **Tokens** — how a page is ingested (main.js:181-241):
  - Primary tokens keep the raw pdf.js item index as `idx`, blank items
    included.
  - The page text is the single-space join of the token strings.
  - On the OCR path, the raw OCR text becomes the page text, with one
    placeholder token per word.
- **Mapper** — `buildSentencesAndMapItems` (main.js:263-288). It gives
  every token a character range in the joined text. It then looks each
  trimmed sentence up with `indexOf` from a moving start, and records the
  positions of the tokens whose ranges overlap the sentence.
- **Click** — the pure part of `handleCanvasClick` (main.js:314-339). It
  picks the nearest token that has coordinates and looks its `idx` up
  among the sentences' `itemIndices`, falling back to the first sentence.
- **Quotes** — `scoreSentences` (main.js:446-465). It deduplicates the
  normalized sentences, scores them on length, keywords and list
  punctuation, and sorts them stably by score and then by length.
- **Escape** — `escapeHtml` (main.js:24).
- **CleanPdf** — `cleanPdfText` (clean_pdf.js:6-24). It applies five
  rewrites in order: de-hyphenation, a paragraph marker, newline removal,
  marker restoration and a trim.
- **Text** — shared JavaScript string primitives: `\s`, `trim()`,
  `replace(/\s+/g, ' ')`, `join`, `indexOf` and `includes`.

Strings are `seq<char>`, read as sequences of code points. UTF-16
surrogate pairs are not modelled, so `.length`, `[...s].length` and
character positions all coincide. Coordinates and scores are exact reals.

## Model

| member | source | states |
|---|---|---|
| Text.IndexOf | main.js:279 | a returned position is a real occurrence of the pattern, at or after the start |
| Text.IndexOfFirst | main.js:279 | `indexOf` returns the first occurrence at or after the start, and none exactly when there is no occurrence from there |
| Text.ContainsMeansMatch | main.js:459 | `includes` holds exactly when the pattern occurs at some position |
| Text.BlankMeans | main.js:191 | a string is blank after `trim()` exactly when every character is JavaScript white space |
| Text.TrimIsInfix | main.js:277 | `trim()` removes only white space, and only at both ends: the result is an infix of the input framed by white space |
| Segmenter.SplitIntoSentences | main.js:291-297 | there are no sentences exactly when the text is empty or all white space; every sentence is non-empty, trimmed and uses single ASCII spaces only |
| Segmenter.NormalizeKeeps | main.js:293 | normalizing is idempotent and leaves normalized text unchanged |
| Segmenter.NormalizeEmpty | main.js:292-293 | the normalized text is empty exactly when the input is all white space |
| Segmenter.CjkJoin | main.js:295 | cutting after every CJK stop loses no character: the pieces concatenate back to the text |
| Segmenter.CjkMode | main.js:294-295 | with a CJK stop present, every sentence but the last ends with `。！？`, no sentence holds one before its end, and the sentences pack the normalized text with at most one space before each |
| Segmenter.LatinMode | main.js:294-296 | without a CJK stop, the sentences joined by single spaces give back the normalized text; every sentence but the last ends with `.`, `?` or `!`; a text with no such mark is one sentence |
| Segmenter.LatinJoin | main.js:296 | the Latin split of a normalized text loses only the single separating spaces |
| Tokens.PrimaryFromAt | main.js:188-215 | every primary token copies a non-blank item and keeps that item's raw index |
| Tokens.PrimaryFromOrdered | main.js:188-215 | the raw indices of the primary tokens strictly increase |
| Tokens.PrimaryFromHas | main.js:188-215 | every non-blank item yields a token |
| Tokens.PrimaryIdxIsPosition | main.js:188-213 | a token's `idx` equals its position in the page's token list for all tokens exactly when no blank item precedes a non-blank one |
| Tokens.WordsFromShape | main.js:232 | every OCR word is non-empty and holds no white space |
| Tokens.WordsJoin | main.js:232 | on normalized text, the OCR words joined by single spaces give the text back |
| Tokens.WordsNormalize | main.js:232 | for every text, the OCR words joined by single spaces are the text with each white-space run made one space and both ends trimmed |
| Tokens.IngestCases | main.js:220-244 | either the page text is the join of the primary tokens' strings and the tokens are the primary ones, or OCR was needed and accepted, the page text is the raw OCR text, and the tokens are coordinate-free placeholders for its words, with `idx` equal to position |
| Tokens.LongTextSkipsOcr | main.js:223 | a joined text with eight or more non-blank characters never goes to OCR |
| Tokens.OcrTextIsNotTheJoin | main.js:229-235 | the raw OCR text need not be the join of the OCR words |
| Mapper.RangesFromShape | main.js:265-273 | there is one range per token; the first starts at the cursor, each is as long as its string, and the next starts one character after the previous one ends |
| Mapper.RangesInJoin | main.js:265-273 | when the page text is the join, every token's range delimits exactly its own string in it |
| Mapper.IncludedExact | main.js:282-283 | `itemIndices` lists exactly the positions whose ranges overlap the sentence (both ends inclusive), increasing |
| Mapper.Locate | main.js:277-285 | a found sentence is the trimmed segment at its first occurrence from the search start, at `startChar..endChar`, recording its overlapping tokens; a non-empty segment is not found exactly when it does not occur from the search start, and then the search start moves forward |
| Mapper.PlaceSegments | main.js:275-287 | sentence `j` carries the text of segment `ks[j]` with `ks` strictly increasing: the emitted texts are a subsequence of the segments |
| Mapper.PlaceSound | main.js:275-287 | every emitted sentence is sound, the sentences come in document order at least the advance apart, and there are never more of them than segments |
| Mapper.FixedFindsEverySentence | main.js:275-287 | when the search resumes at the end of the previous sentence, every segment of a normalized page text is found, in order, under both rules |
| Mapper.AsWrittenFindsLatinSentences | main.js:275-287 | as written, every sentence of a normalized page text without CJK stops is found, in order |
| Mapper.AsWrittenDropsCjkSentence | main.js:285 | as written, of the two sentences of "あ。い。" only the first is emitted |
| Mapper.FixedKeepsCjkSentence | main.js:285 | resuming at the sentence end, both sentences of "あ。い。" are emitted |
| Mapper.RawTextLosesSentence | main.js:279 | with a raw OCR text "a  b", the segment "a b" is not found and no sentence is emitted |
| Click.OnPage | main.js:315 | the page's tokens are exactly the tokens whose page is the clicked one |
| Click.OnPageConcat | main.js:315 | the filter keeps token order: filtering two runs one after the other is filtering each |
| Click.OnPageOne | main.js:315 | a single token is kept exactly when its page is the clicked one |
| Click.OnPageAll | main.js:315 | tokens that are all on the clicked page are all kept, in order |
| Click.Nearest | main.js:319-330 | placeholders are skipped; the result is absent exactly when no token has coordinates, and otherwise is the first token at the least distance |
| Click.NearestUnique | main.js:329 | the strict `<` makes the nearest token unique |
| Click.Choose | main.js:332-334 | the chosen token is the nearest one, or the first token of the page when none has coordinates |
| Click.FindFrom | main.js:337 | the `find` returns the first sentence whose `itemIndices` hold the key, and none when no sentence does |
| Click.Pick | main.js:337-338 | the sentence holding the key, else the first sentence; absent exactly when there are no sentences |
| Click.Resolve | main.js:314-339 | no text on the page exactly when the page has no token; detection failure exactly when it has tokens but no sentences; otherwise one of the page's tokens and the first sentence of that page whose `itemIndices` hold the token's `idx`, or the page's first sentence when none does |
| Click.ResolveChoosesNearest | main.js:319-334 | the copied token is the first nearest token with coordinates, or the page's first token when none has any |
| Click.ResolveAgrees | main.js:337 | when every token's `idx` is its position on the page, looking up by `idx` and by position agree |
| Click.ResolveByPosition | main.js:314-339 | the corrected handler has the same three outcomes as the original; the copied token is the chosen one, and the sentence is the first whose `itemIndices` hold the token's position, or the page's first sentence when none does |
| Click.ByPositionHoldsToken | main.js:337 | looked up by position, the copied sentence holds the chosen token whenever any sentence of the page does |
| Click.IdxHazard | main.js:337 | on a page whose first item is blank, clicking "あ。" copies "い。" as written and "あ。" by position |
| Quotes.CleanKeywordsMembers | main.js:448 | the cleaned keywords are exactly the non-empty trims of the given keywords |
| Quotes.CleanKeywordsConcat | main.js:448 | cleaning keeps keyword order: cleaning two lists one after the other is cleaning each |
| Quotes.CleanKeywordsOne | main.js:448 | one keyword is kept, trimmed, exactly when its trim is not empty |
| Quotes.HitsCount | main.js:459 | the hit count is the number of keyword entries the text contains |
| Quotes.LengthScore | main.js:457-458 | 10 inside `[minLen, maxLen]`; outside, minus a fifth of the distance to the nearer bound |
| Quotes.HitsFromBounds | main.js:459 | no hits exactly when no keyword occurs; all hits exactly when every keyword occurs |
| Quotes.Score | main.js:456-460 | an in-band text scores between 10 and 10 + 3 per keyword + 1; an out-of-band text scores below 3 per keyword + 1; with every keyword and list punctuation present, the score is the length part + 3 per keyword + 1; in general it is the length part + 3 for each keyword entry the text contains + 1 with list punctuation |
| Quotes.Collect | main.js:450-462 | every candidate is normalized, at least two characters long, records its length and its score, and no two share a text |
| Quotes.CollectInOrder | main.js:450-462 | the candidates come in the order their texts first appear among the normalized sentences |
| Quotes.CompareMeans | main.js:463 | the comparator puts `a` first exactly when it scores higher, or scores the same and is longer |
| Quotes.Sort | main.js:463 | the sorted candidates are a permutation of the input, ranked by score and then length, both descending |
| Quotes.SortStable | main.js:463 | equally ranked candidates keep their relative order |
| Quotes.ScoreSentences | main.js:446-465 | the result is ranked and every candidate is scored as the code scores it |
| Quotes.ScoreSentencesMeans | main.js:446-465 | the texts are pairwise distinct, and a text is offered exactly when it has at least two characters and is the normalization of some sentence |
| Quotes.ScoreSentencesStable | main.js:447-463 | sorting keeps equally ranked candidates in the order they were collected |
| Quotes.ScoreSentencesTies | main.js:447-463 | equally ranked quotes are offered in the order their texts first appear among the sentences |
| Escape.EscapeHtml | main.js:24 | the result holds no `<` or `>` and is never shorter than the input |
| Escape.EscapeFlat | main.js:24 | replacing `&` first makes the three passes equal to escaping each character on its own; no entity is escaped twice |
| Escape.UnescapeEscape | main.js:24 | decoding the three entities gives the input back |
| Escape.EscapeKeeps | main.js:24 | text without `&`, `<` and `>` is left unchanged |
| CleanPdf.DehyphenDrops | clean_pdf.js:10 | every hyphen before a newline is deleted together with the newline |
| CleanPdf.DehyphenKeeps | clean_pdf.js:10 | text without a newline is unchanged by step 1 |
| CleanPdf.Clean | clean_pdf.js:6-24 | the output is trimmed, and every newline in it has a neighbouring newline |
| CleanPdf.CleanPdfText | clean_pdf.js:6-24 | the same for the fixed marker |
| CleanPdf.PlainTextTrimmed | clean_pdf.js:6-24 | text with no newline and no marker is only trimmed; runs of spaces are kept |
| CleanPdf.HyphenDeleted | clean_pdf.js:10 | a line-end hyphen is deleted with its newline, gluing the word halves |
| CleanPdf.NewlineDeleted | clean_pdf.js:16 | a single newline between two lines is deleted with no space in its place |
| CleanPdf.ParagraphBreak | clean_pdf.js:13-20 | a run of two or more newlines becomes `\n\n`, and the spaces on both sides of it are removed |
| CleanPdf.HyphenBreakGlued | clean_pdf.js:10-13 | a hyphen right before a paragraph break glues the two paragraphs: "a-\n\nb" becomes "ab" |
| CleanPdf.NotIdempotent | clean_pdf.js:6-24 | cleaning is not idempotent: "a- \n\nb" cleans to "a-\n\nb", which cleans to "ab" |
| CleanPdf.CleanPdfTextNotIdempotent | clean_pdf.js:6-24 | the same for the fixed marker |
| CleanPdf.CleanPdfTextMarkerCollision | clean_pdf.js:13-20 | the marker text met in the input is read as a paragraph break |

## Left out

- Rendering, geometry and pdf.js transforms (main.js:150-215): token
  coordinates, widths and heights are inputs to the model. The font-size
  estimate and the matrix product are not modelled.
- The OCR worker (`ocrCanvasForPage`): its result is a parameter of
  `Tokens.IngestPage`, and `None` stands for a failure.
- The DOM, toasts, clipboard, highlight overlay, selection counter and the
  `window` globals: the click handler receives `pageItems` and
  `pageSentences` as parameters.
- `humanFileSize`, `heuristicsHtmlForText`, `renderQuotes` and the
  sample run at the end of clean_pdf.js: outside the text core.
- The `|| ''` and `|| []` fallbacks for `null` or `undefined`: strings and
  lists are always present in the model.
- NaN coordinates, and the `it.x || 0` defaults: coordinates are exact
  reals, and a placeholder is a token at `x = 0` and `y = 0`.
- Floating-point rounding: scores and distances are exact reals. The
  length penalty `diff * 0.2` is therefore exact, and scores that are
  equal as reals tie. In IEEE doubles some of them do not. With
  `minLen = 15` and `maxLen = 160`, a 14-character text without keywords
  or list punctuation scores `-0.2`. A 166-character text with list
  punctuation scores `-1.2000000000000002 + 1`. The sort puts the first
  one ahead because its score is higher. The model ties them and puts
  the longer one ahead.
- The default arguments `minLen = 15` and `maxLen = 160` of
  `scoreSentences`: its only caller passes both.
- UTF-16: `.length` and `[...norm].length` differ on characters outside
  the Basic Multilingual Plane; the model counts code points for both.
- `Array.prototype.sort` is modelled as a stable insertion sort with the
  same comparator. The language requires a stable sort, and the result is
  fully determined by stability and the comparator.
- A bonus per distinct keyword: the loop of main.js:459 adds 3 for every
  entry of the cleaned keyword list, so a keyword given twice adds 6. The
  model follows the loop.
- CleanPdf.ParagraphBreak: stated for a newline run between two lines
  without newlines. It assumes no hyphen right before the run, a first
  line that does not end with a space, a second line that does not start
  with one, and no `_` in the first line. The examples cover the other
  cases.
- CleanPdf.Clean: steps 2 and 4 take the marker as a parameter. The
  proofs hold for any marker that starts with `_`, holds no newline and
  has three or more characters; `CleanPdfText` uses `__PARAGRAPH_BREAK__`.
- Idempotence of `cleanPdfText` is not claimed: the code is not idempotent
  (`CleanPdf.NotIdempotent`).

## Findings

| source | as written | input that shows it | evidently intended | confidence | as-written member | corrected member |
|---|---|---|---|---|---|---|
| main.js:285 | after a sentence is found, the next look-up starts at `ed + 1`, one past its end | page text "あ。い。": the second sentence starts at 2 but the look-up starts at 3, so "い。" is never emitted | every segment the splitter returns is mapped; CJK sentences have no space between them, so the look-up must resume at `ed` | not executed | Mapper.AsWrittenDropsCjkSentence | Mapper.FixedFindsEverySentence |
| main.js:337 | the chosen token is looked up by its raw pdf.js item index `idx`, while `itemIndices` holds positions in the page's token list | items `[" ", "あ。", "い。"]`: the token of "あ。" has `idx` 1, which is the position of "い。", so a click on "あ。" copies "い。" | copy the sentence that holds the clicked token, which needs the token's position | not executed | Click.IdxHazard | Click.ByPositionHoldsToken |
