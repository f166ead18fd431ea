# paperless-ngx title generator, modelled in Dafny

`src/create-titles.ts` is a batch job for a paperless-ngx document archive.
It asks the document service for one page of at most 5000 documents
(`page_size=5000`) and goes through that page's `results`; documents beyond the
first page are never handled. For each listed document, in listing order, it:

1. skips the document when one of its notes contains `Processed(v2)`;
2. otherwise sends the document's OCR content to a language model;
3. reads the title out of the reply with the regular expression `/Title: "(.*)"/`;
4. when the title is non-empty and at most 120 characters long, writes the
   document back with a full-record `PUT` that changes only its title.

A non-success HTTP status from either service, a network error or an answer
body that is not JSON throws, and the throw ends the run.

The model has three parts:

- `text.dfy`. Module `Text` holds JavaScript strings as sequences of UTF-16 code
  units (`length` counts code units) and `String.prototype.includes`, checked
  against a reference definition of "contains". Module `Wrappers` holds
  `Option`, the model's `null`.
- `title_parser.dfy`. Module `TitleParser` holds `exec` of the title pattern,
  with JavaScript semantics: start positions are tried left to right, the group
  is greedy, and `.` refuses the four line terminators (LF, CR, U+2028, U+2029).
  It is proved against a declarative definition of a leftmost-greedy match.
- `create_titles.dfy`. Module `CreateTitles` holds the per-document decision
  (`Handle`) and the loop over the listing (`GenerateTitles`, a method with a
  `while` loop). The two remote services are parameters:
  - `complete` maps the content to the inference service's response;
  - `accept` says whether the document service answers an update with success.

  The loop returns the requests it made, in order, and whether it ended by a
  throw. Its result is proved equal to the trace of a specification (`RunTo`,
  `Trace`). The properties of the run are proved about that trace: what is
  requested, what is written back, and in which order.

## Model

| member | source | states |
|---|---|---|
| Text.IncludesFrom | src/create-titles.ts:37 | the search from index `i` answers true exactly when the needle occurs at some index `k >= i` |
| Text.Includes | src/create-titles.ts:37 | `s.includes(w)` is true exactly when `w` occurs as a contiguous run of `s` |
| CreateTitles.AnyNoteIncludes | src/create-titles.ts:36-38 | `notes.some(note includes marker)` is true exactly when some note contains the marker |
| CreateTitles.IsProcessed | src/create-titles.ts:35-41 | the skip test holds exactly when some note of the document contains `Processed(v2)` |
| CreateTitles.MarkedDocumentIsSkipped | src/create-titles.ts:35-41 | a document with the note `Processed(v2) done` is skipped and gets no request at all |
| Text.IsLineTerminator | src/create-titles.ts:144 | the code units `.` refuses: line feed, carriage return, line separator and paragraph separator |
| TitleParser.DotRefusesExactlyLineTerminators | src/create-titles.ts:144 | for any code unit `c` other than a quote, `Title: "c"` gives the title `c` exactly when `c` is not a line terminator, and null otherwise |
| TitleParser.LineEnd | src/create-titles.ts:144 | how far `.*` can run: the first line terminator at or after `k`, or the end; nothing before it is a terminator |
| TitleParser.LastQuote | src/create-titles.ts:144 | backtracking of `(.*)"`: the last quote in the range, with no quote after it, or none when the range has no quote |
| TitleParser.MatchAt | src/create-titles.ts:144 | the attempt at one start position: a match with the largest closing quote, or none exactly when no closing quote gives a match there |
| TitleParser.ExecFrom | src/create-titles.ts:144 | the scan from `i`: a match at the first start position `>= i` where one exists, greedy at that position |
| TitleParser.Exec | src/create-titles.ts:144 | `exec` gives the leftmost-greedy match, and null exactly when the pattern matches nowhere |
| TitleParser.ExtractTitle | src/create-titles.ts:142-150 | null exactly when the pattern matches nowhere; a found title `t` has `Title: "` + t + `"` inside the reply and no line terminator |
| TitleParser.MatchedGroup | src/create-titles.ts:144 | the group of any match is enclosed by `Title: "` and `"` at the match position and holds no line terminator |
| TitleParser.ExtractTitleIsLeftmostGreedy | src/create-titles.ts:144-149 | both directions: the title is `t` exactly when `t` is the group of the leftmost start position, taken up to its last quote on that line |
| TitleParser.LeftmostGreedyMatchIsUnique | src/create-titles.ts:144 | at most one match is leftmost and greedy |
| TitleParser.EmptyQuotesGiveEmptyTitle | src/create-titles.ts:144-149 | `Title: ""` gives the empty title, not null |
| TitleParser.GreedyGroupKeepsInnerQuotes | src/create-titles.ts:144 | the group runs to the last quote of its line: inner quotes are kept, and a quote on the next line is not reached |
| TitleParser.MatchStartsWithT | src/create-titles.ts:144 | every match starts with the code unit `T` |
| TitleParser.TrailingTitleLineIsExtracted | src/create-titles.ts:144-149 | a reply ending in `Title: "t"`, with no `T` before that line, gives exactly `t`, quotes inside `t` included |
| TitleParser.GeneratedTextExample | src/create-titles.ts:144-149 | the reply `Generated text Title: "Rechnung 2023-04-01"` gives `Rechnung 2023-04-01` |
| CreateTitles.Handle | src/create-titles.ts:35-51 | one iteration, case by case, each as an if-and-only-if. Skipped exactly when marked. The run fails exactly on a failed completion or a refused update. No update when the reply does not parse or the title is empty. Rejected as too long exactly when the title has more than 120 code units. An update is sent exactly for a title of 1..120 code units; it is the document with only its title replaced |
| CreateTitles.CallsOf | src/create-titles.ts:43-50 | an iteration makes no request exactly when it skips; any update it sends is the outcome's document, and only an updating outcome sends one |
| CreateTitles.HandleDocument | src/create-titles.ts:35-51 | the loop body returns the requests of `Handle`'s outcome and throws exactly when that outcome is a failure |
| CreateTitles.RunTo | src/create-titles.ts:34-52 | the run over the first `n` documents has at most `n` outcomes |
| CreateTitles.TraceStep | src/create-titles.ts:34-52 | handling one more document appends its requests to the trace |
| CreateTitles.RunStep | src/create-titles.ts:34-52 | one more turn of a loop that has not stopped appends the next outcome and its requests; the loop stops exactly when that outcome fails |
| CreateTitles.StoppedRunIsFinal | src/create-titles.ts:34-52 | after a failure, the rest of the listing adds no outcome |
| CreateTitles.GenerateTitles | src/create-titles.ts:34-52 | the loop makes exactly the requests of the specified run, in order, and ends by a throw exactly when the run's last outcome is a failure |
| CreateTitles.RunToFacts | src/create-titles.ts:34-52 | the run handles a prefix of the listing in order, each document as one iteration says; no outcome but the last is a failure; a run shorter than the listing ends in a failure |
| CreateTitles.Outcomes | src/create-titles.ts:34-52 | the outcomes of the whole run: a prefix of the listing, in order, each as `Handle` decides; no outcome but the last is a failure; a run shorter than the listing ends in a failure |
| CreateTitles.NoFailureHandlesEveryDocument | src/create-titles.ts:34-52 | when both services always succeed, every document of the listing is handled and nothing fails |
| CreateTitles.RequestsAppend | src/create-titles.ts:43 | the completion requests of two request sequences, concatenated, are the concatenation of each one's |
| CreateTitles.UpdatesAppend | src/create-titles.ts:50 | the same for the update requests |
| CreateTitles.RequestsOfOne | src/create-titles.ts:35-43 | an iteration asks for a completion of the document's content exactly when it does not skip |
| CreateTitles.RequestsFollowSkips | src/create-titles.ts:34-43 | when the skipped iterations are exactly the processed documents, the completions asked for are the contents of the unprocessed documents, in order |
| CreateTitles.RequestsAreUnprocessedContents | src/create-titles.ts:34-43 | the inference service is asked once per handled unprocessed document, in listing order, and never for a processed one |
| CreateTitles.SentIndices | src/create-titles.ts:44-50 | the positions of the updating outcomes, strictly increasing, and containing every updating position |
| CreateTitles.UpdatesFollowSentIndices | src/create-titles.ts:44-50 | the updates in the trace are the documents of the updating outcomes, in order |
| CreateTitles.UpdatesOfOne | src/create-titles.ts:44-50 | an iteration sends its outcome's document exactly when it updates |
| CreateTitles.UpdatesAreValidRetitlesInListingOrder | src/create-titles.ts:44-50 | the updates are sent in listing order, one per document whose reply yields a title of 1..120 code units. Each is that document with only its title replaced by the extracted title |
| CreateTitles.EveryUpdateIsValid | src/create-titles.ts:44-50 | every update sent is a valid retitling of one of the handled documents |
| CreateTitles.RunGuarantees | src/create-titles.ts:34-52 | for the whole run: the completions asked for are the unprocessed contents; no update carries a title longer than 120 code units; every update is a valid retitling of a listed document |

## Left out

- Listing the documents (`getDocuments`, src/create-titles.ts:55-72): the listing is the input, standing for the `results` of the single page the source asks for. A failed listing throws before the loop starts and is not modelled.
- `updateDocument` (src/create-titles.ts:96-116) and `_runCompletion` (src/create-titles.ts:118-140) make HTTP requests. They are the parameters `accept` and `complete`. `accept(u) == false` and `NotOk` stand for any throw of the call: a non-success status, a network error, or an answer body that is not JSON (src/create-titles.ts:115 and 139 parse it). The run ends there.
- `complete` is a function of the content alone. Two listed documents with the same content therefore get the same reply in the model, and either both completions fail or neither does. The real service is called once per document and may answer the two calls differently.
- The reply body is modelled as a string. A completion answer whose `response` field is missing is not modelled; the source would then match against the text `undefined`.
- `addNote` (src/create-titles.ts:74-94) is never called, so no note is ever written and nothing is marked `Processed(v2)` by this run.
- The configuration file check and `process.exit` (src/create-titles.ts:4-13), the Basic credentials encoding (src/create-titles.ts:17-19) and the prompt template (src/create-titles.ts:21-28) are not modelled.
- The one-second pause before each completion (src/create-titles.ts:42) is timing only.
- Console logging (src/create-titles.ts:31, 33, 46, 49, 146) is not modelled.
- The test `matches.length < 2` (src/create-titles.ts:145) is not modelled separately. A successful `exec` of this pattern always has two entries, so only the null test matters.
- A document's other JSON fields (tags, dates, correspondent, ...) are one map `rest`. The update passes them back unchanged. JSON serialisation is not modelled.
- Strings are sequences of UTF-16 code units. `Units` converts literals written in Basic Multilingual Plane characters only.
- src/split-pdfs.ts is not part of this model.
- CreateTitles.RunTo: its own contract states only the length bound; what the run contains is stated by RunToFacts and by the contract of Outcomes.
