# Presidio PII Detector: a Dafny model of its span and string logic

The system detects personally identifiable information in text and PDF files. An
external detection engine (Presidio's `AnalyzerEngine`, extended with four pattern
recognizers for Indian identifiers) reports findings. A finding is an entity type,
a half-open character span and a score. Everything the repository itself does with
those findings is modelled here:

- **Backend (`backend/main.py`, module `Backend`):**
  - `clean_entities` drops every AADHAAR finding that overlaps a CREDIT_CARD finding;
  - `/analyze` applies the request's score threshold and builds
    `{entity, start, end, confidence, value}` records;
  - `/mask` rewrites the spans of PAN, AADHAAR, IBAN_CODE and CREDIT_CARD findings
    from right to left with fixed masks;
  - `/upload-pdf` joins the text of the PDF's pages and builds records without a
    threshold.
- **Frontend (`frontend/script.js`, module `Frontend`):**
  - `cleanEntities` applies an allow-list, keeps one entity per span (the first
    one of highest confidence) and sorts by start;
  - `highlightText` splices an HTML wrapper into each span from right to left;
  - `downloadCSV` builds a header line plus one line per entity.
- **Recognizers (`backend/recognizers.py`, module `Recognizers`):** the four token
  formats (PAN, Aadhaar, Voter ID, generic Org ID) as predicates on whole tokens,
  with their entity types and scores.
- **Offline runner (`run_test_docker.py`, module `Offline`):** `analyze_text` keeps
  the findings of allowed types and builds records. It does no overlap suppression
  and no thresholding.

Shared modules:
- `Entities`: findings, records, the allow-list.
- `Seqs`: Python/JavaScript slicing, filtering, subsequences, decimal numerals,
  line splitting.
- `Sorting`: a stable sort standing for Python's `sorted` and JavaScript's
  `Array.prototype.sort`.
- `Splicing`: the right-to-left span rewriting used by both `mask` and
  `highlightText`.

The engine's findings are a parameter of every operation, and so is the page text
of a PDF. Each loop of the source (`clean_entities`, `mask`, the page join,
`cleanEntities`' `forEach`, `highlightText`, `downloadCSV`, `analyze_text`) is a
method with a `for` loop. Each method is proved equal to a function, and the
properties are lemmas about that function.

## Model

| member | source | states |
|---|---|---|
| Backend.Overlaps | backend/main.py:42 | The overlap test `not (r.end <= c.start or r.start >= c.end)`: spans that share a position overlap, and two non-empty spans overlap only when they share one |
| Backend.Suppressed | backend/main.py:39-44 | Only an AADHAAR finding is ever suppressed, and a result list without a CREDIT_CARD finding suppresses nothing |
| Backend.Cleaned | backend/main.py:34-50 | What `clean_entities` returns: the findings in input order without the suppressed AADHAAR ones; never longer than the input, and every element an input finding that is not suppressed |
| Backend.CleanEntities | backend/main.py:34-50 | The loop returns exactly the findings that are not suppressed, in input order: a finding is kept iff it is not an AADHAAR finding overlapping some CREDIT_CARD finding of the same input |
| Backend.CleanedIsSubsequence | backend/main.py:35-50 | The cleaned list is an order-preserving subsequence of the engine's findings |
| Backend.CleanedExactly | backend/main.py:39-48 | A finding survives iff it is in the input and not suppressed; every non-AADHAAR finding survives |
| Backend.CleanedIdempotent | backend/main.py:39-48 | Cleaning the cleaned list changes nothing, because CREDIT_CARD findings are never removed |
| Backend.Analyze | backend/main.py:58-68 | The list comprehension of `/analyze`: one record per cleaned finding that meets the threshold. Its contract: never more records than findings; Backend.AnalyzeExactly states which records |
| Backend.AnalyzeMeetsThreshold | backend/main.py:58-68 | The finding each returned record is built from scores at least the request's threshold; the record's confidence stands for that unrounded score |
| Backend.AnalyzeExactly | backend/main.py:55-68 | A record is returned iff it is built from a finding that survives cleaning and scores at least the threshold |
| Backend.AnalyzeValuesAreSlices | backend/main.py:58-66 | When the spans lie inside the text, every returned record's value is `text[start:end]` and its offsets are inside the text |
| Backend.AnalyzeAboveAllScores | backend/main.py:67 | A threshold above every score returns no entities |
| Backend.ThresholdExample | backend/test_main.py:99-108 | "Code ORG12345" holds an Org ID token; with score 0.8 and threshold 0.9, `/analyze` returns nothing |
| Backend.JoinedPages | backend/main.py:93-98 | The assembled PDF text is empty or ends with a line break |
| Backend.ExtractText | backend/main.py:93-98 | The page loop computes the joined text: each page with text, followed by "\n" |
| Backend.JoinedPagesSkipsEmpty | backend/main.py:96-98 | Pages without text contribute nothing: the result equals the join of only the pages with text |
| Backend.JoinedPagesEmpty | backend/main.py:93-98 | The text is empty iff no page has text |
| Backend.JoinedPagesLines | backend/main.py:96-98 | When no page text holds a line break, the lines of the joined text are exactly the pages with text, in page order |
| Backend.JoinedPagesAllLines | backend/main.py:96-98 | When no page text ends in a line break, the lines of the joined text are the lines of the pages, page after page: the added "\n" ends each page's last line and adds no line |
| Backend.UploadPdf | backend/main.py:102-111 | The list comprehension of `/upload-pdf`: one record per cleaned finding, with no threshold. Its contract: never more records than findings; Backend.UploadExactly states which records |
| Backend.UploadExactly | backend/main.py:100-111 | A record is returned iff it is built from a finding that survives cleaning, whatever its score |
| Backend.UploadValuesAreSlices | backend/main.py:102-111 | When the spans lie inside the extracted text, every returned record's value is `text[start:end]` and its offsets are inside the text |
| Backend.RecognizedFindingKept | backend/recognizers.py:6-71 | A custom recognizer's finding has an allowed type and carries the accepted token as value; unless it is an Aadhaar finding, cleaning never removes it |
| Backend.UploadIgnoresScores | backend/main.py:100-111 | Every finding that survives cleaning yields a record from `/upload-pdf`, whatever its score |
| Backend.AnalyzeWithinUpload | backend/main.py:100-111 | For the same text and findings, `/analyze`'s records are a subsequence of `/upload-pdf`'s, and equal when every score meets the threshold |
| Backend.MaskString | backend/main.py:79-86 | Each mask string consists only of 'X' and spaces |
| Backend.MaskStringLengths | backend/main.py:79-86 | The masks for PAN, AADHAAR, IBAN_CODE and CREDIT_CARD are 10, 14, 20 and 19 characters long |
| Backend.MaskEditsExactly | backend/main.py:78-86 | A rewrite is planned iff it comes from a listed finding of a masked type, with that type's mask |
| Backend.MaskEditsEmpty | backend/main.py:78-86 | Findings of unmasked types only plan no rewrite |
| Backend.MaskStep | backend/main.py:79-86 | One loop turn splices the type's mask into the text so far for a masked type, and leaves the text alone otherwise |
| Backend.Mask | backend/main.py:73-88 | `/mask` returns the text with the cleaned findings' masks applied in descending start order; without a finding of a masked type it returns the text unchanged |
| Backend.MaskSpans | backend/main.py:76-88 | The masking loop computes the rewrites of the given order applied one after the other |
| Backend.MaskPlanEmpty | backend/main.py:75-86 | Without findings of a masked type, masking plans no rewrite, whatever the threshold |
| Backend.MaskOrder | backend/main.py:78 | `sorted(results, key=start, reverse=True)` over the cleaned findings: a permutation of them (its order is stated by Backend.MaskOrderIsDescending) |
| Backend.Masked | backend/main.py:73-88 | What `/mask` returns: the text with the masking rewrites applied one after the other in visiting order; Backend.Mask, Backend.MaskPlanExactly and Backend.MaskInPlace state its properties |
| Backend.MaskOrderIsDescending | backend/main.py:78 | Masking visits spans by non-increasing start; findings with equal starts keep the engine's order, and the visited findings are exactly the cleaned ones |
| Backend.MaskSingleFinding | backend/main.py:78-86 | A single finding inside the text becomes `text[:start] + mask + text[end:]` for a masked type and leaves the text unchanged otherwise |
| Backend.MaskPlanExactly | backend/main.py:75-86 | A rewrite is performed iff it comes from a finding that survives cleaning and has a masked type |
| Backend.MaskEditsDisjoint | backend/main.py:78-86 | Results visited by descending start whose masked spans are non-empty, inside the text and pairwise apart give rewrites that each end at or before the previous one's start |
| Backend.MaskPlanDisjoint | backend/main.py:75-86 | When the cleaned findings of masked types have non-empty spans inside the text and no two of them overlap, masking's rewrites meet the premise of the three lemmas below |
| Backend.MaskKeepsOutside | backend/main.py:78-86 | When the visited spans are each left of the previous one, the text before the smallest masked start is a prefix of the result and the text after the largest masked end is its suffix |
| Backend.MaskPlacesEachMask | backend/main.py:78-86 | Under the same condition, each mask stands after the masked text to its left and is followed by the original text up to the next masked span |
| Backend.MaskInPlace | backend/main.py:78-86 | When every mask is as long as its span, the length is unchanged, each surviving masked finding's span holds its mask (so the original value is gone there), and every other character is the original |
| Backend.MaskExampleCleaned | backend/test_main.py:52-61 | The PAN and Aadhaar findings of the masking test both survive cleaning |
| Backend.MaskExamplePlan | backend/main.py:78-86 | The masking test's findings are rewritten Aadhaar first, then PAN |
| Backend.MaskExampleEdits | backend/main.py:78-86 | Applying those two rewrites to the test's text yields the two masks between the unchanged labels |
| Backend.MaskExample | backend/test_main.py:52-61 | "PAN: ABCDE1234F, Aadhaar: 1234 5678 9012" masks to "PAN: XXXXXXXXXX, Aadhaar: XXXX XXXX XXXX" |
| Entities.RecordOf | backend/main.py:58-66 | A record copies the finding's type, start and end, takes the score as confidence, and has `text[start:end]` as value when the span lies inside the text |
| Entities.Records | backend/main.py:102-111 | One record per finding, in order |
| Entities.RecordsSnoc | run_test_docker.py:49-55 | Appending a finding appends its record |
| Entities.RecordsMembership | backend/main.py:102-111 | A record is in the list iff it is built from one of the findings |
| Entities.RecordsKeepSubsequence | backend/main.py:58-68 | Building records preserves the subsequence relation between finding lists |
| Entities.RecordsCarrySlices | backend/main.py:104-108 | Records of findings inside the text carry the text of their span |
| Frontend.Step | frontend/script.js:31-36 | One call of the `forEach` body: a new span is added as the last key with its entity, a strictly more confident entity replaces the stored one under its key, anything else leaves the map alone; Frontend.StepKeepsValid and Frontend.FoldEntryStep state its properties |
| Frontend.StepKeepsValid | frontend/script.js:31-36 | One `forEach` step keeps the map consistent: keys listed once, each entry stored under its own span |
| Frontend.Fold | frontend/script.js:30-36 | The map after the loop is consistent |
| Frontend.ValuesOf | frontend/script.js:38 | `Object.values` lists one entry per key, in key insertion order |
| Frontend.FoldSnoc | frontend/script.js:31-36 | The map after one more entity is one more step |
| Frontend.FirstMaxOther | frontend/script.js:33-34 | An entity with another span leaves the choice for a span alone |
| Frontend.FirstMaxKeep | frontend/script.js:33-34 | An entity that is not strictly more confident does not replace the stored one |
| Frontend.FirstMaxTake | frontend/script.js:33-34 | An entity strictly more confident than every earlier one of its span becomes the choice |
| Frontend.FoldEntryStep | frontend/script.js:31-36 | The loop keeps the invariant "the entry for a span is the first entity of highest confidence with it" |
| Frontend.FoldEntry | frontend/script.js:30-36 | After the loop the map has a key exactly for the spans present, holding the first entity of highest confidence with that span |
| Frontend.ValuesMembership | frontend/script.js:38 | An entity is among the values iff the map holds it under some key |
| Frontend.ValuesDistinct | frontend/script.js:30-38 | No two values share a span |
| Frontend.Normalized | frontend/script.js:14-39 | What `cleanEntities` returns: the allowed entities folded into the span map, its values sorted by start; the Frontend.Normalized* lemmas below state its properties |
| Frontend.NormalizedSource | frontend/script.js:28-38 | Every returned entity is the first most confident allowed input entity of its span |
| Frontend.NormalizedAllowed | frontend/script.js:15-28 | Every returned entity is an input entity whose type is one of the ten allowed types |
| Frontend.NormalizedKeepsFirstBest | frontend/script.js:33-34 | A returned entity is at least as confident as every allowed input entity with its span, and on a tie it is the first one seen |
| Frontend.NormalizedOnePerSpan | frontend/script.js:30-36 | No two returned entities share a `(start, end)` pair, and every span of an allowed input entity is represented |
| Frontend.NormalizedSorted | frontend/script.js:38 | The result is sorted by ascending start, and entities with equal starts keep map order |
| Frontend.ValuesAddKey | frontend/script.js:32-35 | A new key adds its entity at the end of the values |
| Frontend.FoldDistinct | frontend/script.js:30-38 | On entities with pairwise distinct spans, the map's values are the entities themselves, in order |
| Frontend.NormalizedIdempotent | frontend/script.js:28-38 | `cleanEntities` of its own output changes nothing; the page applies it at line 75 and again inside `highlightText` |
| Frontend.CleanEntities | frontend/script.js:14-39 | The filter, map loop and sort return the normalized list: allowed input entities only, one per span, sorted by start |
| Frontend.FillSpanTable | frontend/script.js:30-36 | The `forEach` loop builds the map, with its key order, that the fold describes |
| Frontend.TieKeepsFirst | frontend/script.js:33-34 | A Voter ID reported also as an Org ID with the same span and score: whichever comes first is kept |
| Frontend.TieFold | frontend/script.js:33-34 | Of two allowed entities with the same span and confidence, cleaning keeps only the first |
| Frontend.Wrapper | frontend/script.js:47-52 | The wrapper holds the original text of the span at a fixed offset after the entity type |
| Frontend.HighlightEditsAt | frontend/script.js:46-54 | There is one rewrite per entity, and the i-th replaces the i-th entity's span with its wrapper |
| Frontend.HighlightEditsSnoc | frontend/script.js:46-54 | One more entity adds its rewrite at the end |
| Frontend.HighlightStep | frontend/script.js:53 | `result.slice(0, start) + span + result.slice(end)` applied to the text so far is one more rewrite |
| Frontend.HighlightNothing | frontend/script.js:42-56 | With no entity of an allowed type (in particular no entities at all), the text comes back unchanged |
| Frontend.Highlighted | frontend/script.js:42-57 | What `highlightText` returns: the text with each cleaned entity's wrapper spliced in, in descending start order; Frontend.HighlightText and the Frontend.Highlight* lemmas state its properties |
| Frontend.HighlightText | frontend/script.js:42-57 | `highlightText` returns the text with the wrapper of each cleaned entity spliced in, in descending start order |
| Frontend.SpliceWrappers | frontend/script.js:46-54 | The `forEach` loop computes the wrappers' rewrites applied one after the other |
| Frontend.HighlightOrderIsDescending | frontend/script.js:44 | Wrappers are applied in non-increasing start order, to exactly the cleaned entities |
| Frontend.HighlightAfterClean | frontend/script.js:44 | Highlighting a list already cleaned gives the same result as highlighting the raw list |
| Frontend.WrapperHoldsOriginal | frontend/script.js:47-52 | Each entity's inserted wrapper contains `text.slice(start, end)` of the original text, at the wrapper's offset |
| Frontend.CsvLine | frontend/script.js:187 | One row `${entity},${value},${confidence},${start},${end}` without its newline; Frontend.CsvLineSingle states when it is a single line |
| Frontend.Csv | frontend/script.js:185-188 | The whole file: the header line, "\n", then each entity's row and "\n"; Frontend.CsvLines states its line structure |
| Frontend.CsvRowsSnoc | frontend/script.js:186-188 | One more entity appends its line and a newline |
| Frontend.DownloadCsv | frontend/script.js:184-190 | `downloadCSV` builds the header line and then one line per entity |
| Frontend.AppendRows | frontend/script.js:186-188 | The `+=` loop appends one line and a newline per entity, in list order, to what it starts from |
| Frontend.CsvLineSingle | frontend/script.js:187 | An entity whose fields hold no line break gives a line without one |
| Frontend.CsvRowsLines | frontend/script.js:186-188 | The rows split into exactly one line per entity, in list order |
| Frontend.HeaderSingleLine | frontend/script.js:185 | The header is a single line |
| Frontend.LinesAfterHeader | frontend/script.js:185-188 | A single-line head and the rows split into the head and one line per entity |
| Frontend.CsvLines | frontend/script.js:185-188 | The file's lines are "Entity,Value,Confidence,Start,End" followed by exactly one line per entity, in list order |
| Recognizers.IsPan | backend/recognizers.py:11 | A PAN token: five uppercase letters, four digits, one uppercase letter |
| Recognizers.IsAadhaar | backend/recognizers.py:28 | An Aadhaar token: three groups of four digits separated by single whitespace characters |
| Recognizers.IsVoterId | backend/recognizers.py:45 | A Voter ID token: three uppercase letters, then seven digits |
| Recognizers.IsOrgId | backend/recognizers.py:64 | The Org ID format read as the regular expression states it: some split into 2-10 uppercase letters, an optional `-`, `_` or space, and 2-10 digits |
| Recognizers.MatchOrgId | backend/recognizers.py:64 | A deterministic matcher for the Org ID format; an accepted token is 4 to 21 characters long |
| Recognizers.LeadingUpper | backend/recognizers.py:64 | Counts the uppercase letters at the front of a token: they are all uppercase and the next character is not |
| Recognizers.MatchOrgIdCorrect | backend/recognizers.py:64 | The left-to-right matcher accepts a token iff it is 2-10 uppercase letters, an optional `-`, `_` or space, then 2-10 digits |
| Recognizers.Recognize | backend/recognizers.py:6-71 | A recognizer's finding lies inside the text, has an allowed type and scores between 0.8 and 0.9 |
| Recognizers.SupportedEntity | backend/recognizers.py:16-69 | Each recognizer's `supported_entity` (PAN, AADHAAR, VOTER_ID, ORG_ID) is in the allowed list |
| Recognizers.Score | backend/recognizers.py:12-65 | Each pattern's fixed score (0.9, 0.85, 0.8, 0.8) lies between 0.8 and 0.9 |
| Recognizers.SampleTokensAccepted | backend/recognizers.py:11-46 | ABCDE1234F is a PAN, "1234 5678 9012" an Aadhaar number, ABC1234567 a Voter ID, ORG99999 an Org ID |
| Recognizers.OrgIdCommentSamples | backend/recognizers.py:62-64 | ORG12345, EMP-90876, COMP_00123, STAFF99 and ID-778899 are Org IDs |
| Recognizers.VoterIdIsOrgId | backend/recognizers.py:45-64 | Every Voter ID token also has the Org ID format |
| Recognizers.PanIsNotOrgId | backend/recognizers.py:11-64 | No PAN token has the Org ID format, as a PAN ends in a letter |
| Recognizers.AadhaarIsNotOrgId | backend/recognizers.py:28-64 | No Aadhaar token has the Org ID format, as it starts with a digit |
| Recognizers.PanIsNotVoterId | backend/recognizers.py:11-45 | No token is both a PAN and a Voter ID |
| Offline.OfflineRecords | run_test_docker.py:41-57 | What `analyze_text` returns: one record per finding of an allowed type, in the engine's order, so never more records than findings; Offline.OfflineExactly states which records |
| Offline.AnalyzeText | run_test_docker.py:41-57 | The loop with `continue` returns one record per finding of an allowed type, in the engine's order |
| Offline.OfflineExactly | run_test_docker.py:45-55 | A record is reported iff it is built from a finding whose type is in `ALLOWED_ENTITIES` |
| Offline.OfflineKeepsOrder | run_test_docker.py:44-57 | The output is a subsequence of all the findings' records, is no longer than the findings, and drops nothing when every type is allowed |
| Offline.OfflineValuesAreSlices | run_test_docker.py:49-55 | When the spans lie inside the text, each value is `text[start:end]` and the offsets are inside the text |
| Offline.OfflineKeepsSuppressed | run_test_docker.py:45-55 | An AADHAAR finding that the backend would suppress is still reported |
| Offline.UploadWithinOffline | run_test_docker.py:45-55 | When every type is allowed, `/upload-pdf`'s records for the same findings are a subsequence of the runner's |
| Offline.OverlapExample | run_test_docker.py:45-55 | A card number also read as an Aadhaar number: the runner reports both, `/upload-pdf` only the card |
| Seqs.Filter | backend/main.py:58-68 | The filtered list is no longer than the input and holds only input elements satisfying the condition |
| Seqs.FilterMembership | backend/main.py:66-67 | An element is kept iff it is in the input and satisfies the condition |
| Seqs.FilterSnoc | run_test_docker.py:45-55 | Filtering one more element appends it iff it satisfies the condition |
| Seqs.FilterIsSubsequence | frontend/script.js:28 | A filter keeps order |
| Seqs.ClampIndex | backend/main.py:80 | A slice bound lands inside the string; non-negative bounds are kept and negative ones count from the end |
| Seqs.Slice | backend/main.py:64 | A slice never fails; within bounds it is the substring, and an empty or reversed range gives the empty string |
| Seqs.NatToDecimal | frontend/script.js:187 | The numeral of a natural number is non-empty and consists of decimal digits |
| Seqs.IntToDecimal | frontend/script.js:187 | An interpolated integer (of absolute value below 10^21, which covers every string offset) holds neither a line break nor a comma |
| Seqs.DecimalRoundTrip | frontend/script.js:187 | Reading back a numeral gives the number |
| Seqs.SplitLinesCons | frontend/script.js:187 | A line without a break, then "\n", splits off as the first line |
| Seqs.SplitLinesTerminated | backend/main.py:98 | A line break after non-empty text that does not end in one adds no line |
| Sorting.Sort | backend/main.py:78 | Sorting permutes its input |
| Sorting.SortSorted | backend/main.py:78 | The result is ordered by the key |
| Sorting.SortPermutes | backend/main.py:78 | The result has the same elements with the same multiplicities |
| Sorting.SortStable | frontend/script.js:38 | Elements with equal keys keep their order |
| Sorting.SortOfSorted | frontend/script.js:38 | Sorting a list already ordered by the key changes nothing |
| Sorting.SortPairwise | backend/main.py:78 | Sorting keeps every two elements related by a symmetric relation |
| Sorting.SortDistinct | frontend/script.js:38 | Sorting keeps elements' spans pairwise distinct |
| Splicing.Splice | backend/main.py:80 | A rewrite inside the text is `text[:start] + insert + text[end:]` |
| Splicing.ApplyEditsSnoc | backend/main.py:78-86 | One more rewrite is one more splice of the text so far |
| Splicing.DescendingDisjointIsPairwise | backend/main.py:78-86 | "Each span ends at or before the previous one's start" read recursively and read pairwise are the same |
| Splicing.ApplyEditsIsRebuild | backend/main.py:78-86 | For such spans the right-to-left loop equals the result assembled from the original text's pieces |
| Splicing.ApplyEditsPlacesEdit | backend/main.py:78-86 | For such spans each replacement stands after the rebuilt text to its left and before the original gap up to the next span |
| Splicing.ApplyEditsPlacesInsert | frontend/script.js:46-54 | For such spans each replacement occurs in the result at the length of the text rebuilt to its left |
| Splicing.ApplyEditsKeepsOutside | backend/main.py:78-86 | For such spans the text before the smallest start is a prefix and the text after the largest end a suffix of the result |
| Splicing.RebuildSameLength | backend/main.py:78-86 | With length-preserving replacements the length is unchanged, each span holds its replacement at its own offsets and every other character is the original |
| Splicing.ApplyEditsSameLength | backend/main.py:78-86 | The same for the right-to-left loop |

## Left out

- The detection engine (Presidio's `AnalyzerEngine`, spaCy, the regular-expression engine) is an external library. Its findings for a text are a parameter of every operation.
- Recognizer matching in context is not modelled: the `\b` word boundaries and scanning a text for matches. The formats are predicates on a whole token, with ASCII letters, ASCII digits for `\d` and the six ASCII whitespace characters space, `\t`, `\n`, `\r`, `\v` and `\f` for `\s`. Python's `\s` also matches the ASCII separators `\x1c` to `\x1f`, and Unicode digits and spaces; these are not modelled. The predicates read `[A-Z]` case-sensitively, as the pattern text is written; the regular-expression flags the engine compiles the patterns with (which may include case-insensitive matching) are not modelled.
- `round(r.score, 2)` is floating-point rounding. A record's confidence is the finding's score, copied exactly.
- Backend.AnalyzeMeetsThreshold: holds for the unrounded score only. The filter compares `r.score`, while the record carries `round(r.score, 2)`, so a finding of score 0.844 passes threshold 0.842 and is returned with confidence 0.84, below the threshold.
- `AnalyzeRequest.threshold` is `Optional[float]`. An explicit `null` threshold (a comparison with `None` in Python) is not modelled; a request always carries a real threshold, 0.5 when none is given.
- PDF text extraction with pdfplumber is an external library. The page texts are a parameter; a page whose `extract_text()` is `None` is the empty string, because both are falsy.
- The FastAPI application, CORS middleware, pydantic validation and HTTP status codes (such as the 422 for a missing file) are web glue and are not modelled.
- JavaScript's number-to-string conversion, used for the confidence in `highlightText` and `downloadCSV`, is the function parameter `show`. Integers are rendered in decimal by `IntToDecimal`, as JavaScript does for absolute values below 10^21, which covers every string offset; larger integers switch to exponent form, which is not modelled.
- The fixed text of `highlightText`'s template literal is the `HighlightMarkup` constant of the `Markup` datatype. The lemmas are stated for any markup, so they do not depend on the exact whitespace of the template.
- JavaScript strings are sequences of UTF-16 code units, while Python offsets count code points. Both are modelled as sequences of characters, so offsets agree only for text without characters outside the Basic Multilingual Plane.
- The map key `${start}-${end}` is modelled as the pair `(start, end)`, which the string represents uniquely for the integer offsets the backend sends. `Object.values` returns string keys in insertion order, and a reassigned key keeps its position.
- `downloadCSV` does no quoting. A field containing a comma or a line break breaks the row structure, so Frontend.CsvLines assumes fields without line breaks.
- Backend.MaskKeepsOutside, Backend.MaskPlacesEachMask and Backend.MaskInPlace assume the masked spans, in the order masking visits them, each end at or before the previous one's start. Backend.MaskPlanDisjoint derives this from the findings: the cleaned findings of masked types have non-empty spans that lie inside the text and are pairwise disjoint. Masking overlapping spans garbles the text, and these frame properties do not hold then.
- Frontend.WrapperHoldsOriginal: states that each wrapper holds the original span text, not where that wrapper stands in the highlighted result; no lemma combines the two for the whole result.
- Splicing.ApplyEditsPlacesInsert: places each inserted text only for spans that each end at or before the previous one's start; overlapping entity spans garble the highlighted markup.
- The DOM, `fetch`, the browser download and the view switching are browser I/O: `analyzeText`, `maskText`, `analyzePDF`, `renderResults`, `renderTable`, `showView`, `downloadJSON`, `downloadFile` and the threshold slider.
- `setup_analyzer()` of run_test_docker.py builds the engine and registers the four custom recognizers; the engine is left out above. `main()` lists the TEST directory, reads the files and prints JSON. This I/O is not modelled.
- backend/test_main.py, run_tests.py and test_presidio.py are not part of this model. The suite's masking and threshold cases are restated as the lemmas Backend.MaskExample and Backend.ThresholdExample.
- The sort of Python and JavaScript is modelled by a stable insertion sort. The model uses only what both libraries guarantee: the result is ordered, a permutation, and stable.
