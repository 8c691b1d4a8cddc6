# Student Pulse Senior Editor — a verified model of its core

The application lets a student paste, upload or link an article draft,
sends it to a hosted language model for an editorial review, and shows the
reply: a scorecard of five pass/fail checks and a word count, a readiness
rating, numbered editor's notes, and a polished draft whose edits are
marked with `**`.

This project models, in Dafny:

- `types.dfy` (`Types`): the scorecard, the evaluation result and the
  controller's state record.
- `app.dfy` (`App`): the controller in `App.tsx` as a class
  `App.Controller` with the state record and the link field. Its handlers
  change only the fields the source changes: draft and link editing, file
  upload, and evaluation. The module also holds the pure helpers around
  them: the submission text, the evaluate button's `disabled` test, the PDF
  text assembly (a loop, kept as a method), the MIME-type dispatch, the
  split of the polished draft into plain and emphasised segments, and the
  numbering of the notes.
- `gemini.dfy` (`GeminiService`): `evaluateArticle` in
  `services/geminiService.ts`. This covers key selection, refusing to call
  without a key, the request contents, the `"{}"` fallback for an empty
  reply, and the classification of every failure into one of two messages.
  The response schema's `required` lists are modelled too.
- `scorecard.dfy` (`ScorecardView`): what `components/Scorecard.tsx`
  decides. That is the rating colour, the check and cross icons for the
  five checks in their fixed order, the word-count badge, and the length
  label.
- `jsstring.dfy` (`JsString`): the JavaScript string operations the core
  relies on. These are `trim` (ECMAScript white space and line
  terminators), `includes`, `split` and `join` with a string separator, and
  the decimal rendering of an integer.
- `wrappers.dfy` (`Wrappers`): `Option` and `Result`.

The outside world is passed in as parameters. An upload is an
`UploadedFile`: its declared MIME type plus what each reader would return
(the .docx extractor, the PDF reader's pages of text items, `file.text()`),
each able to fail with a message. The model call is a `CallOutcome`: it
threw, with an optional message, or it replied, with an optional text.
`JSON.parse` followed by the cast is a function
`parse: string -> Result<EvaluationResult, string>`. The environment key
`process.env.API_KEY` is an `Option<string>`.

Details of the code that the model keeps:

- The link counts only when its trimmed value is non-empty.
- Starting an evaluation clears the previous result before the attempt.
- The reply is cast without any schema check, so the rating can be any
  string and falls back to the grey colour.
- Each PDF page's text is followed by a newline, the last page included.
- The missing-key message ends in "(top right).".

## Model

| member | source | states |
|---|---|---|
| App.Controller.constructor | App.tsx:11-17 | starts with an empty draft, no evaluation, not loading, no error, and an empty link |
| App.Submission | App.tsx:70 | a link whose trimmed value is non-empty is sent with its label, then the context label, then the draft; otherwise the draft alone is sent |
| App.SubmissionCarriesInputs | App.tsx:70 | the draft always ends the submission, and a non-blank link appears verbatim right after the link label |
| App.LabelledCarriesInputs | App.tsx:70 | in a labelled submission the draft is the suffix and the link follows the label verbatim |
| App.SubmissionBlankIff | App.tsx:70-72 | the submission is blank exactly when both the link and the draft are blank, so that is the only case where evaluating does nothing |
| App.LabelledNotBlank | App.tsx:70-72 | a submission that carries the link label is never blank |
| App.EvaluateDisabled | App.tsx:171 | the button is disabled exactly when an operation is in progress or the submission would be blank |
| App.PdfTextAppend | App.tsx:31-37 | the text of two consecutive runs of pages is the concatenation of their texts |
| App.ExtractTextFromPdf | App.tsx:31-38 | the loop returns every page's items joined by spaces, each page followed by a newline, in page order |
| App.PageTextNewlines | App.tsx:35 | joining items with spaces adds no newline |
| App.PdfTextNewlines | App.tsx:31-37 | the document text has exactly one newline per page on top of those inside the items |
| App.ExtractedText | App.tsx:44-53 | dispatches on the declared type to the .docx, PDF or plain-text reader; any other type fails with the unsupported-type message |
| App.AcceptedTypesOnly | App.tsx:45-53 | the three accepted types are distinct, and only they can yield text |
| App.PolishedSegments | App.tsx:256 | one segment per piece of `split('**')`, in order; exactly the odd-numbered pieces are emphasised |
| App.PolishedSegmentsFaithful | App.tsx:256 | the pieces joined with `**` give back the draft; no piece contains `**`; every piece but the last ends where the first `**` after its start begins (markers are taken left to right); there is one piece more than there are non-overlapping markers; the first piece is plain |
| App.PolishedSegmentsUnique | App.tsx:256 | any texts that join back to the draft, take the markers left to right and leave none in the last text are exactly the segments' texts |
| App.PolishedSegmentsOfEmpty | App.tsx:256 | an empty polished draft renders as one empty plain segment |
| App.NumberedNotes | App.tsx:239-241 | the notes keep their order and count and are numbered from 1 |
| App.Controller.EditDraft | App.tsx:165 | typing replaces the draft and changes nothing else |
| App.Controller.EditLink | App.tsx:139 | typing replaces the link and leaves the state record alone |
| App.Controller.BeginUpload | App.tsx:42 | an upload starts by setting the busy flag and clearing the error |
| App.Controller.SucceedUpload | App.tsx:55-56 | the extracted text replaces the draft, the busy flag drops, and the link is cleared |
| App.Controller.FailUpload | App.tsx:58 | the failure's message becomes the error and the busy flag drops; the draft and the link are kept |
| App.Controller.HandleFileUpload | App.tsx:41-60 | on success the draft becomes the file's text, the error is cleared and the link is emptied; on failure only the error and the busy flag change |
| App.Controller.BeginEvaluate | App.tsx:74 | an evaluation starts by setting the busy flag and clearing the error and the previous result |
| App.Controller.SucceedEvaluate | App.tsx:77 | the result is stored and the busy flag drops |
| App.Controller.FailEvaluate | App.tsx:79 | the failure's message becomes the error and the busy flag drops |
| App.Controller.HandleEvaluate | App.tsx:69-81 | a blank submission changes nothing and sends nothing; otherwise one client call is made with no override key, and its result or error message ends up in the state; the draft and the link are kept |
| GeminiService.SelectKey | services/geminiService.ts:28 | the override key if truthy, else the environment key if truthy, else the empty string |
| GeminiService.RequestContents | services/geminiService.ts:39 | the fixed prefix followed by the draft verbatim |
| GeminiService.RequestContentsInjective | services/geminiService.ts:39 | different drafts give different request contents |
| GeminiService.ResponseBody | services/geminiService.ts:74 | a truthy reply text is parsed as is; an empty or missing one is replaced by `{}` |
| GeminiService.ClassifyFailure | services/geminiService.ts:76-82 | a failure whose message contains `403` gives the rejected-key message; any other failure, a missing message included, gives the connection message |
| GeminiService.EvaluateArticle | services/geminiService.ts:26-83 | without a key nothing is sent and the missing-key message is the error; with a key exactly one request goes out with that key and the prefixed draft; the result is the parsed reply when the call replied and parsing succeeded; every error is one of the three messages |
| GeminiService.FailureClassification | services/geminiService.ts:36-82 | with a key, the outcome fails exactly when the call threw or parsing failed, and the error is the rejected-key message exactly when that failure's message contains `403` |
| GeminiService.ErrorMessagesDistinctAndReachable | services/geminiService.ts:30-32 | the three error messages are distinct, and each of them is produced by some input |
| GeminiService.SchemaRequiresAllFields | services/geminiService.ts:44-70 | the schema's `required` lists name every field of the scorecard and of the result, in declaration order, each once |
| ScorecardView.RatingColor | components/Scorecard.tsx:9-15 | each of the three ratings gets its own colour classes; any other string gets the grey default |
| ScorecardView.RatingColorsDistinct | components/Scorecard.tsx:9-15 | the four colour class strings are distinct |
| ScorecardView.RatingColorIdentifiesRating | components/Scorecard.tsx:9-15 | a non-default colour occurs exactly for the three ratings, and it determines which one |
| ScorecardView.CheckIcon | components/Scorecard.tsx:2-6 | green classes and the check glyph exactly when checked; grey classes and the cross glyph exactly when not |
| ScorecardView.CheckRows | components/Scorecard.tsx:25-44 | five rows with the captions in their fixed order |
| ScorecardView.CheckRowsShowChecks | components/Scorecard.tsx:25-44 | row i shows a check exactly when the i-th flag (tone, scannability, formatting, packaging, admin) is set |
| ScorecardView.CheckRowsDetermineChecks | components/Scorecard.tsx:25-44 | two scorecards whose rows look the same have the same five flags |
| ScorecardView.WordCountBadge | components/Scorecard.tsx:46 | blue classes exactly when the count is at most 750, red exactly when above |
| ScorecardView.LengthLabel | components/Scorecard.tsx:49 | "Length: ", the count's decimal numeral (no leading zero, no `-0`), then " / 750 max"; reading back the middle gives the count |
| JsString.Trim | App.tsx:70-72 | the result is a stretch of the string with only white space before and after it; it is empty exactly when the string is all white space, and otherwise neither starts nor ends with white space |
| JsString.IndexOfFindsFirst | services/geminiService.ts:78 | the search returns the first position where the substring occurs, and returns none only when it occurs nowhere |
| JsString.IncludesIff | services/geminiService.ts:78 | `includes` holds exactly when the substring occurs at some position |
| JsString.JoinSplit | App.tsx:256 | joining the pieces of a split with its separator gives back the string |
| JsString.SplitPiecesExcludeSeparator | App.tsx:256 | no piece of a split contains the separator |
| JsString.SplitLength | App.tsx:256 | a split has one piece more than there are non-overlapping occurrences |
| JsString.SplitPiecesEndAtFirstOccurrence | App.tsx:256 | every piece but the last, followed by the separator, has its first occurrence of the separator right after the piece: the search runs left to right |
| JsString.SplitUnique | App.tsx:256 | the split is the only sequence of pieces that joins back to the string, ends every piece but the last at its first occurrence and leaves none in the last |
| JsString.NatToStringValue | components/Scorecard.tsx:49 | a natural number's decimal digits read back as the number |
| JsString.IntToStringRoundTrip | components/Scorecard.tsx:49 | an integer's rendering, sign included, parses back to the integer |
| JsString.NumeralCanonical | components/Scorecard.tsx:49 | a numeral without leading zeros is the rendering of its value, so each number has one numeral |
| JsString.ParseIntCanonical | components/Scorecard.tsx:49 | whatever parses to an integer is that integer's rendering, so parsing and rendering are inverse |

## Left out

- The rendered markup and styling beyond the class strings the scorecard chooses. It is presentation, with no logic to prove.
- The .docx and PDF libraries. What they return for a file is an input of the upload (`UploadedFile`).
- The network call itself, the model name, the tools option and the system instruction. The call's outcome is an input (`CallOutcome`); the rest is configuration with no effect on the logic modelled.
- `JSON.parse` and the cast. They are represented by the `parse` parameter, since the cast performs no check the model could state.
- GeminiService.EvaluateArticle: `parse` yields either a complete `EvaluationResult` or an error, so a reply that parses as JSON of the wrong shape cannot be represented. The main case is an empty reply: the source parses `{}` without error and stores a record with no fields as the evaluation, while the model lets `parse("{}")` be either an error (shown as the connection message, which the source never shows here) or a complete record.
- Asynchrony: every handler runs to completion as one step, so interleavings of overlapping uploads and evaluations are not modelled. Neither the upload nor the evaluation handler refuses to start while another is busy, since the source does not either.
- The drag-and-drop highlight, the link field's show/hide toggle, the hidden file input, and how a dropped or chosen file reaches `handleFileUpload`. These are view state with no effect on the state record.
- The copy-to-clipboard button, its alert, and the error logging in the client. They are effects outside the state.
- App.Controller.HandleEvaluate: never passes an override key, as the application does not. The client's override path is covered by `GeminiService.EvaluateArticle` on its own.
- ScorecardView.CheckRows: models the check rows as captions and icon styles, not markup.
- JsString.Trim: works on Unicode scalar values rather than UTF-16 code units. A string containing unpaired surrogates is therefore not representable.
- Types.Scorecard: the word count is an unbounded integer. JSON numbers with a fractional part are not modelled.
- JsString.IntToString: agrees with JavaScript's rendering of a number only for integers of magnitude at most 2^53. Beyond that JavaScript prints the shortest digits that round-trip to the same double, and from 1e21 on it uses exponent notation.
- A failed upload reports whatever message the failing reader gave. The readers' own messages are not modelled.
