# doc-hierarchy-ai, modelled in Dafny

doc-hierarchy-ai turns a PDF into a hierarchical outline of headings,
sections, paragraphs, lists and tables. It works in three steps:

1. The browser extracts the PDF's text page by page, recording where each
   page starts.
2. It sends the text to the `extract-hierarchy` edge function. That function
   forwards the first 50 000 characters to an AI gateway and turns the model's
   reply into JSON. It strips a Markdown code fence if there is one. When the
   reply is not valid JSON, it falls back to a fixed two-node outline.
3. The `useHierarchyExtraction` hook drives the attempt through its stages
   (uploading, extracting, analyzing, complete or error). It merges the
   service's outline with the PDF's own title.

The model has five modules, one file each:

- `wrappers.dfy` (`Wrappers`): `Option` and `Result`.
- `js_strings.dfy` (`JsStrings`): the JavaScript string operations the code
  relies on, each with a contract:
  - `trim` and the regular-expression class `\s`, both over the ECMAScript
    white-space set;
  - `replace` with a string pattern, which replaces only the first occurrence;
  - `join`;
  - the decimal rendering of a page count in a template literal.

  The code never calls `indexOf`. `IndexOf` is the first-occurrence search
  by which `replace` and the code-fence match are modelled.
- `hierarchy.dfy` (`Hierarchy`): the shared types (`HierarchyNode`,
  `ExtractionResult`, `ProcessingStatus`) as datatypes. It also defines what
  it means for the statistics to describe an outline: node count, depth and
  paragraph count.
- `pdf_extractor.dfy` (`PdfExtractor`): `extractTextFromPDF` as a method with
  the source's page loop. It is proved against `Assembled` (the untrimmed text
  of a run of pages) and `PageBreaks` (the offset where each page starts). The
  PDF library is replaced by its output: the text items of each page and the
  information dictionary.
- `extract_hierarchy.dfy` (`ExtractHierarchy`): the edge function as a pure
  decision `Handle`, from the request to the response. Three external inputs
  become parameters:
  - whether the API key is configured;
  - the gateway, an oracle from the user message to the reply;
  - `JSON.parse`, an oracle that may fail.

  The code-fence regular expression is modelled by a first-fence search
  (`FenceCapture`). The lemmas establish that it yields the trimmed body of a
  fenced reply and leaves an unfenced reply alone.
- `hierarchy_extraction.dfy` (`HierarchyExtraction`): the hook as a class
  `Hook`, with the fields `status`, `result` and `fileName`:
  - `ProcessFile` takes the extractor's outcome and the service call as
    parameters.
  - `Reset` returns the hook to idle.
  - A ghost `history` records every status set and `requests` every call
    made. `ProcessFile` is proved to extend them by the trace and requests of
    the specification function `Run`.
  - The lemmas about `Run` state the pipeline order, how errors surface, and
    the merge.

Three places where the code behaves differently from what a reader might
expect:

- The page breaks index the untrimmed text, while the returned text is trimmed
  (`PdfExtractor.BreaksIndexUntrimmedText`).
- The fallback outline reports `headings: 1` although its only non-paragraph
  node is a `section` (`ExtractHierarchy.FallbackShape`).
- A reply with no error and null data sets the "Building hierarchy tree..."
  status and then fails on `data.title` with the engine's `TypeError` message
  (`HierarchyExtraction.Conclusion`).

The types of `src/types/hierarchy.ts` are datatypes in `Hierarchy`:

| type | source | models |
|---|---|---|
| `Hierarchy.NodeType` | src/types/hierarchy.ts:4 | the six node kinds; the field is named `nodeType` because `type` is a Dafny keyword |
| `Hierarchy.NodeMetadata` | src/types/hierarchy.ts:7-11 | optional page number, confidence and style, each possibly absent |
| `Hierarchy.HierarchyNode` | src/types/hierarchy.ts:1-12 | id, level, kind, text, ordered children and optional metadata |
| `Hierarchy.Statistics` | src/types/hierarchy.ts:17-22 | the four reported counts |
| `Hierarchy.ExtractionResult` | src/types/hierarchy.ts:14-24 | title, outline, statistics and optional parse warning |
| `Hierarchy.Stage` | src/types/hierarchy.ts:27 | the six stages of an attempt |
| `Hierarchy.ProcessingStatus` | src/types/hierarchy.ts:26-30 | stage, progress and message |

The edge function's own copy of `HierarchyNode` (supabase/functions/extract-hierarchy/index.ts:8-19) has the same shape and uses the same datatype.

## Model

| member | source | states |
|---|---|---|
| JsStrings.TrimStart | supabase/functions/extract-hierarchy/index.ts:153 | `\s*`: the result is a suffix of the input, everything dropped is white space, and the result does not start with white space |
| JsStrings.TrimEnd | src/lib/pdfExtractor.ts:48 | the result is a prefix of the input, everything dropped is white space, and the result does not end with white space |
| JsStrings.Trim | src/lib/pdfExtractor.ts:48 | `trim()`: the result is a piece of the input with only white space before and after it, and has white space at neither end |
| JsStrings.TrimStartOfSpaces | src/lib/pdfExtractor.ts:48 | white space followed by a non-space is dropped entirely by the leading trim |
| JsStrings.TrimEndOfSpaces | src/lib/pdfExtractor.ts:48 | trailing white space after a non-space is dropped entirely by the trailing trim |
| JsStrings.TrimStartSkipsSpace | supabase/functions/extract-hierarchy/index.ts:153 | any leading white space can be skipped first without changing the leading trim |
| JsStrings.TrimStartAppend | supabase/functions/extract-hierarchy/index.ts:153 | appending text that starts with a non-space commutes with the leading trim |
| JsStrings.TrimOfPadded | src/lib/pdfExtractor.ts:48 | trimming white space around a text with no white space at its ends gives back exactly that text |
| JsStrings.PaddedPiece | src/lib/pdfExtractor.ts:48 | dropping white space from the front and then from the back leaves a piece of the text padded only by white space |
| JsStrings.IndexOf | supabase/functions/extract-hierarchy/index.ts:153 | the result is an occurrence at or after the start and no occurrence comes earlier; no result means no occurrence at all |
| JsStrings.IndexOfFirst | supabase/functions/extract-hierarchy/index.ts:153 | an occurrence with none before it is exactly what the search finds |
| JsStrings.ReplaceFirst | src/hooks/useHierarchyExtraction.ts:84 | `replace('.pdf', '')`: unchanged without an occurrence; otherwise the first occurrence, and no other, is cut out and the replacement put in its place |
| JsStrings.ReplaceFirstDropsSuffix | src/hooks/useHierarchyExtraction.ts:84 | a name `<stem>.pdf` whose stem has no `.pdf` becomes `<stem>`, including when the stem ends in a prefix of `.pdf` |
| JsStrings.Join | src/lib/pdfExtractor.ts:43 | the joined length is the parts' total length plus one separator between each pair; its contents are given by `JoinAppend` |
| JsStrings.JoinAppend | src/lib/pdfExtractor.ts:43 | joining two non-empty lists of parts is joining each and putting one separator between them |
| JsStrings.JoinFront | src/lib/pdfExtractor.ts:43 | a list of two or more parts joins as its first part, the separator, then the join of the rest |
| JsStrings.NatToString | src/hooks/useHierarchyExtraction.ts:46 | the rendering of `pageCount` is non-empty, all decimal digits, and has no leading zero unless it is 0 |
| JsStrings.NatToStringRoundTrip | src/hooks/useHierarchyExtraction.ts:46 | reading the rendered digits back gives the page count |
| Hierarchy.DepthAtMostSize | src/types/hierarchy.ts:16-21 | an outline's depth never exceeds its node count, and a non-empty outline is at least one level deep |
| Hierarchy.CountOfAtMostSize | src/types/hierarchy.ts:16-21 | the nodes of one kind are never more than all the nodes |
| Hierarchy.ConsistentStatisticsBounded | src/types/hierarchy.ts:16-21 | statistics that describe their outline have `0 <= maxDepth <= totalNodes` and `0 <= paragraphs <= totalNodes` |
| PdfExtractor.PageTexts | src/lib/pdfExtractor.ts:36-41 | each item contributes exactly one string, so the texts line up with the items |
| PdfExtractor.ItemText | src/lib/pdfExtractor.ts:36-41 | a text item contributes its string, a marked-content item the empty string |
| PdfExtractor.PageChunk | src/lib/pdfExtractor.ts:43-44 | every page's chunk ends in the blank line `"\n\n"` |
| PdfExtractor.PageBreaks | src/lib/pdfExtractor.ts:33 | one break per page |
| PdfExtractor.Assembled | src/lib/pdfExtractor.ts:21-45 | the untrimmed text of a run of pages: their chunks in order (stated by `AssembledAppend`, `AssembledLength` and `AssembledPrefix`) |
| PdfExtractor.MetadataOf | src/lib/pdfExtractor.ts:51-55 | the metadata object is always present; each field is the information dictionary's entry, or absent without a dictionary |
| PdfExtractor.ExtractTextFromPdf | src/lib/pdfExtractor.ts:17-57 | the page count is the number of pages; break `i` is the length of the text of pages before `i`; the text is the trimmed concatenation of all page chunks; the metadata comes from the dictionary |
| PdfExtractor.AssembledAppend | src/lib/pdfExtractor.ts:28-45 | the text of two runs of pages is the text of the first followed by that of the second |
| PdfExtractor.AssembledLength | src/lib/pdfExtractor.ts:44 | every page adds at least two characters |
| PdfExtractor.AssembledPrefix | src/lib/pdfExtractor.ts:28-45 | the text of the first `j` pages extends the text of the first `i <= j`, by at least two characters per page |
| PdfExtractor.PageBreaksOrdered | src/lib/pdfExtractor.ts:22-45 | one break per page, the first is 0, breaks strictly increase, and each lies inside the untrimmed text |
| PdfExtractor.PageChunkAtBreak | src/lib/pdfExtractor.ts:33-44 | page `i`'s chunk sits in the untrimmed text exactly at break `i` |
| PdfExtractor.BreaksIndexUntrimmedText | src/lib/pdfExtractor.ts:33-48 | for pages "a" and "" the breaks are [0, 3] while the returned text is "a": breaks can point past the end of the trimmed text |
| ExtractHierarchy.Truncate | supabase/functions/extract-hierarchy/index.ts:108 | `slice(0, n)` is the prefix of length min(length, n) |
| ExtractHierarchy.UserMessage | supabase/functions/extract-hierarchy/index.ts:108 | the user message: the fixed lead, a blank line, then the text cut at 50 000 characters (its contents are stated by `ForwardedDocument`) |
| ExtractHierarchy.ForwardedDocument | supabase/functions/extract-hierarchy/index.ts:108 | the user message is the fixed lead followed by the first min(length, 50000) characters of the text |
| ExtractHierarchy.Preview | supabase/functions/extract-hierarchy/index.ts:175 | a text of at most 500 characters is kept whole; a longer one becomes its first 500 characters plus "..."; at most 503 characters |
| ExtractHierarchy.FallbackResult | supabase/functions/extract-hierarchy/index.ts:164-188 | the fallback result for a reply that is not JSON (its shape and statistics are stated by `FallbackShape`) |
| ExtractHierarchy.Handle | supabase/functions/extract-hierarchy/index.ts:21-202 | OPTIONS gives an empty 200; every status is one of 200, 400, 402, 429 or 500; the body is an error exactly when the status is not 200; the status is 400 exactly when a readable body has no non-empty string `textContent`; a fallback body is the fallback for the request's own text |
| ExtractHierarchy.TextCheckedBeforeKey | supabase/functions/extract-hierarchy/index.ts:29-34 | missing or empty text is a 400 "Text content is required", whatever the key, gateway or parser |
| ExtractHierarchy.MissingKeyRejected | supabase/functions/extract-hierarchy/index.ts:36-43 | with text but no API key the answer is 500 "AI service not configured" |
| ExtractHierarchy.GatewaySeesTruncatedText | supabase/functions/extract-hierarchy/index.ts:96-113 | the response depends on the gateway only through its reply to the message built from the truncated text |
| ExtractHierarchy.GatewayStatusMapped | supabase/functions/extract-hierarchy/index.ts:115-136 | a non-ok gateway status 429 gives 429, 402 gives 402, anything else gives 500, each with its fixed message |
| ExtractHierarchy.GatewayFailure | supabase/functions/extract-hierarchy/index.ts:115-136 | a non-ok gateway status always gives an error body with status 402, 429 or 500; 402 and 429 are passed on, anything else is 500 "Failed to analyze document" |
| ExtractHierarchy.MissingContentRejected | supabase/functions/extract-hierarchy/index.ts:138-147 | an ok gateway reply without content is a 500 "No response from AI service" |
| ExtractHierarchy.ModelReplySucceeds | supabase/functions/extract-hierarchy/index.ts:149-193 | an ok reply with content always gives 200: the parsed value of the extracted JSON text, or the fallback when parsing fails |
| ExtractHierarchy.ExceptionsBecome500 | supabase/functions/extract-hierarchy/index.ts:195-201 | an exception from reading the request, the fetch, or reading the reply becomes a 500 carrying its message |
| ExtractHierarchy.FallbackShape | supabase/functions/extract-hierarchy/index.ts:164-188 | the fallback is one section holding one paragraph with the preview, both at confidence 0.5, with a warning; its statistics match its node count, depth and paragraphs, and its `headings: 1` counts the section |
| ExtractHierarchy.NoFenceInside | supabase/functions/extract-hierarchy/index.ts:153 | a fence starting inside `x` in `x + "```" + y` would be a fence of `x` followed by two backticks |
| ExtractHierarchy.FenceAfter | supabase/functions/extract-hierarchy/index.ts:153 | `x + "```" + y` has a fence right after `x` |
| ExtractHierarchy.NoFenceBefore | supabase/functions/extract-hierarchy/index.ts:153 | no fence of `x + "```" + y` starts inside `x` when `x` cannot hide one |
| ExtractHierarchy.FirstFenceAt | supabase/functions/extract-hierarchy/index.ts:153 | the first fence of `x + "```" + y` is the one right after `x` when `x` cannot hide one |
| ExtractHierarchy.SuffixWithoutFence | supabase/functions/extract-hierarchy/index.ts:153 | dropping a prefix of a text without a fence leaves none |
| ExtractHierarchy.SkipJsonTag | supabase/functions/extract-hierarchy/index.ts:153 | `(?:json)?`: the result is a suffix of the text after the opening fence; which suffix is stated by `TagSkipped` |
| ExtractHierarchy.FenceCapture | supabase/functions/extract-hierarchy/index.ts:153 | a match needs a fence in the reply; the capture is shorter than the reply by at least two fences and holds no fence, since `*?` stops at the first closing one |
| ExtractHierarchy.CaptureAfterOpening | supabase/functions/extract-hierarchy/index.ts:153 | after the opening fence, a capture leaves room for the closing fence and holds no fence |
| ExtractHierarchy.NoFenceInPrefix | supabase/functions/extract-hierarchy/index.ts:153 | the text before the first closing fence holds no fence |
| ExtractHierarchy.JsonText | supabase/functions/extract-hierarchy/index.ts:152-156 | the text handed to `JSON.parse` is never longer than the reply; `UnfencedReplyUnchanged`, `UnclosedFenceUnchanged` and `FencedReplyParsed` say which text it is |
| ExtractHierarchy.UnfencedReplyUnchanged | supabase/functions/extract-hierarchy/index.ts:152-156 | a reply without a fence is parsed as it is |
| ExtractHierarchy.UnclosedFenceUnchanged | supabase/functions/extract-hierarchy/index.ts:152-156 | a reply with an opening fence but no closing one is parsed as it is |
| ExtractHierarchy.TagSkipped | supabase/functions/extract-hierarchy/index.ts:153 | the `json` tag is skipped exactly when it is present |
| ExtractHierarchy.NoTagAfterOpening | supabase/functions/extract-hierarchy/index.ts:153 | text after an opening fence cannot be mistaken for the tag unless the body itself starts with `json` |
| ExtractHierarchy.TrimStartKeepsNoFence | supabase/functions/extract-hierarchy/index.ts:153-155 | dropping leading white space cannot create a fence |
| ExtractHierarchy.JsonTextAfterFirstFence | supabase/functions/extract-hierarchy/index.ts:153 | the capture depends only on what follows the first fence |
| ExtractHierarchy.OpeningSkipped | supabase/functions/extract-hierarchy/index.ts:153 | after the opening fence, skipping the optional tag and the white space leaves the body without its leading white space, then the closing fence |
| ExtractHierarchy.CaptureUpToFence | supabase/functions/extract-hierarchy/index.ts:153 | when what remains is a fence-free body and a fence, the capture is that body |
| ExtractHierarchy.CaptureOfFencedBody | supabase/functions/extract-hierarchy/index.ts:153 | after the opening fence, optional tag and white space, the capture is the body without its leading white space |
| ExtractHierarchy.FencedReplyParsed | supabase/functions/extract-hierarchy/index.ts:152-156 | a body wrapped in a fence, with or without the `json` tag and any white space, is handed to the parser as the trimmed body |
| HierarchyExtraction.ResolveTitle | src/hooks/useHierarchyExtraction.ts:84 | the service's title if non-empty, else the PDF's title if non-empty, else the file name with its first `.pdf` cut out (unchanged when it has none) |
| HierarchyExtraction.TitleFromFileName | src/hooks/useHierarchyExtraction.ts:84 | a file `<stem>.pdf` with no other title is titled `<stem>` |
| HierarchyExtraction.TitleDropsFirstPdfOnly | src/hooks/useHierarchyExtraction.ts:84 | only the first `.pdf` is removed: "a.pdf.b.pdf" is titled "a.b.pdf" |
| HierarchyExtraction.Merge | src/hooks/useHierarchyExtraction.ts:83-93 | the result takes the resolved title, the service's outline and statistics or the empty defaults, and the service's parse warning |
| HierarchyExtraction.Extracted | src/hooks/useHierarchyExtraction.ts:43-47 | the status "Extracted <n> pages..." at extracting 50 (the digits are stated by `NatToString`) |
| HierarchyExtraction.InvokeErrorMessage | src/hooks/useHierarchyExtraction.ts:67 | the message of a failed call is never empty: its own message when that is non-empty, else the fixed default |
| HierarchyExtraction.Conclusion | src/hooks/useHierarchyExtraction.ts:65-100 | after the reply, one or two statuses and no further calls; a result exactly when the last status is complete; otherwise an error at progress 0; two statuses always start with "Building hierarchy tree..." |
| HierarchyExtraction.Analysis | src/hooks/useHierarchyExtraction.ts:39-100 | from the extracted text on: the short-text error, or the extracted and analyzing statuses, one call with the extraction, then the conclusion (stated by `ShortTextNeverInvokes` and `ServiceCalledWithExtraction`) |
| HierarchyExtraction.AfterReading | src/hooks/useHierarchyExtraction.ts:37-100 | a failed extraction ends in its own message; otherwise the analysis follows |
| HierarchyExtraction.Run | src/hooks/useHierarchyExtraction.ts:16-121 | the whole attempt: the reading and extracting statuses, then the rest (stated by `RunFollowsPipeline`, `SuccessfulRunOrdered` and the lemmas below) |
| HierarchyExtraction.RunFollowsPipeline | src/hooks/useHierarchyExtraction.ts:16-121 | an attempt sets 3 to 6 statuses; all but the last follow the successful pipeline's stages and progress; it ends complete with a result exactly when its last status is complete; a result implies all six statuses; without a result it ends in an error at progress 0 |
| HierarchyExtraction.SuccessfulRunOrdered | src/hooks/useHierarchyExtraction.ts:21-100 | a successful attempt goes uploading 10, extracting 30 and 50, analyzing 60 and 90, complete 100, and progress never falls |
| HierarchyExtraction.ShortTextNeverInvokes | src/hooks/useHierarchyExtraction.ts:37-41 | text shorter than 50 characters ends in the insufficient-text error, whatever the service would answer |
| HierarchyExtraction.ServiceCalledWithExtraction | src/hooks/useHierarchyExtraction.ts:58-63 | with enough text the service is called exactly once, with the extracted text and page breaks |
| HierarchyExtraction.ServiceErrorsSurfaced | src/hooks/useHierarchyExtraction.ts:65-72 | a failed call ends with its message (or "Failed to analyze document" when that is empty), and an `error` in the reply ends with that error, without a result |
| HierarchyExtraction.ServiceDataMerged | src/hooks/useHierarchyExtraction.ts:74-100 | a reply with data and no error completes with the merged result |
| HierarchyExtraction.Hook.constructor | src/hooks/useHierarchyExtraction.ts:8-14 | the hook starts idle at progress 0 with no result and no file name |
| HierarchyExtraction.Hook.SetStatus | src/hooks/useHierarchyExtraction.ts:8 | the status becomes the given one and is recorded; nothing else changes |
| HierarchyExtraction.Hook.ProcessFile | src/hooks/useHierarchyExtraction.ts:16-121 | the statuses set and the requests sent are exactly those of the specified attempt, the result is the attempt's, the file name is kept, and the state stays consistent |
| HierarchyExtraction.Hook.Analyze | src/hooks/useHierarchyExtraction.ts:39-100 | from the extracted text on, the statuses, requests and result are those of the specified analysis |
| HierarchyExtraction.Hook.Conclude | src/hooks/useHierarchyExtraction.ts:65-100 | after the service's reply, the statuses and result are those of the specified conclusion |
| HierarchyExtraction.Hook.Reset | src/hooks/useHierarchyExtraction.ts:123-127 | back to idle at progress 0 with no result and no file name, from any state |

## Left out

- The PDF library (loading, the worker URL, `getPage`, `getTextContent`, `getMetadata`) is replaced by its output; its failures enter the hook as `Err(message)`.
- Strings are sequences of UTF-16 code units, one per `char`. Characters outside the Basic Multilingual Plane are not modelled, so the 50 000- and 500-character cuts are not checked against surrogate pairs.
- A thrown value that is not an `Error` ("Unknown error" in the edge function, "An unexpected error occurred" in the hook) is not modelled; every exception carries a string message.
- Values of the wrong JSON type are folded into absence. A non-string `textContent` counts as missing. Non-string model content, a non-string `data.error`, and non-string information-dictionary entries are not modelled.
- The system prompt, the model name, the temperature, the CORS headers, logging, and the `pageBreaks` field the edge function only logs are not modelled.
- The environment lookup of the API key is a flag; the gateway `fetch` and `JSON.parse` are oracles.
- The hook's artificial delays, its toasts and React's state scheduling are left out. Calls to `processFile` are taken one at a time; overlapping calls are not modelled.
- The presentational components and the page that hosts them are not part of this model.
- Statistics coming from the service are passed through unchecked, as in the source. `Hierarchy.Describes` ties `totalNodes`, `maxDepth` and `paragraphs` to the outline and leaves `headings` unconstrained, since the code counts the fallback's `section` as a heading and defines no rule for it.
- HierarchyExtraction.NullDataMessage: the text of the `TypeError` for `data.title` on null data is the one V8 produces; other JavaScript engines word it differently.
- HierarchyExtraction.Hook.ProcessFile: the status is not stated separately; it is the last entry of the history by the invariant `Valid`.
- PdfExtractor.PageBreaks: its own contract states only the number of breaks; their values and order are stated by `ExtractTextFromPdf` and `PageBreaksOrdered`.
