# sukuna — verified model of the front end's rules

The sukuna front end is a Next.js application for commercial property
underwriting. It compares property records from several data sources, sends
uploaded documents to Amazon Bedrock for a summary, asks a Bedrock knowledge
base questions and renders the citations, uploads files to S3, and shows
pricing, claims-history and chat panels. Most of it is layout and AWS glue.
This project models the handful of rules with exact behaviour of their own
and proves properties about them in Dafny:

- **Discrepancy detection** (`PropertyDataComparison`).
  - `findDiscrepancies` is a loop that pushes one report per field on which the sources disagree.
  - `formatFieldName` is a camel-case splitter.
  - `getFieldClass` picks the highlight class.
- **Attachment classification for the summarizer** (`Summarize`).
  - Media-type subtypes map to document and image formats.
  - `removeFileExtension` is written out as an explicit scan for the regular expression's match.
  - The content block of each file, the single user message, the reply text and the handler's outcome.
- **Citation accumulation** (`Bedrock`). The nested `forEach` loops that build the markdown string and the insertion-ordered set of S3 URIs, proved against a specification function.
- **Upload flattening** (`Upload`). The nested `forEach` loops that flatten the parsed form files, and the all-or-nothing 200/500 response.
- **Client-side state**, with classes whose methods update fields:
  - `Uploader.FileUpload` holds the selection and the progress map.
  - `FileInput.FilePicker` holds the file picker's label.
  - `MockChat.Chat` holds the mock chat's messages, input and open state.
- **Classifiers**.
  - `Pricing`: the risk-score colour bands, the bar width and the exposure-key labels.
  - `ClaimsHistory`: the status colour, and accounting invariants of the fixed claims table.

Shared modules hold the pieces of the JavaScript runtime that the rules use:

- `Wrap`: `Option`, and `Completion` (a value, or an exception).
- `Text`: ASCII `toLowerCase`, `String.prototype.trim`, `split`/`join` and decimal numerals.
- `Dedup`: `Array.from(new Set(xs))`, which keeps the first occurrence of each element in order.

JavaScript exceptions the code can raise are modelled as `Completion.Threw`:

- `sources[0].data` on an empty list;
- `fileType.split("/")[1].toLowerCase()` on a type without a slash;
- a failed SDK call.

Calls into AWS, formidable, the file system and XHR are parameters: what the call returned, or that it threw.

## Model

| member | source | states |
|---|---|---|
| PropertyDataComparison.FindDiscrepancies | frontend/components/PropertyDataComparison.tsx:72-93 | The loop with its `push` computes exactly the specification `Discrepancies`. That is a failure on an empty source list, else the reports of the callback run over the first source's keys in order. |
| PropertyDataComparison.DiscrepancyReport | frontend/components/PropertyDataComparison.tsx:72-93 | It fails exactly when there is no source. Otherwise the reported fields are the first source's keys whose values are not all the same, in key order and without repeats, and there are at most as many reports as keys. Each report lists every source name in input order, the distinct values in first-seen order, and the suggestion text. |
| PropertyDataComparison.ScanFields | frontend/components/PropertyDataComparison.tsx:78-90 | The fields reported after visiting a list of fields are exactly the disagreeing ones, in order. |
| PropertyDataComparison.ScanEntries | frontend/components/PropertyDataComparison.tsx:79-88 | Every report names one of the visited fields. It carries all source names, the de-duplicated values (more than one of them) and the suggestion for its field. |
| PropertyDataComparison.Disagreeing | frontend/components/PropertyDataComparison.tsx:78-82 | The reference list of disagreeing fields is never longer than the field list. |
| PropertyDataComparison.DisagreeingMembers | frontend/components/PropertyDataComparison.tsx:79-82 | A field is in the disagreeing list if and only if it was visited and the sources do not all hold the same value for it. |
| PropertyDataComparison.DisagreeingConcat | frontend/components/PropertyDataComparison.tsx:78 | Visiting two field lists one after the other reports the first list's fields, then the second's. |
| PropertyDataComparison.DisagreeingNoDuplicates | frontend/components/PropertyDataComparison.tsx:74-78 | Distinct keys give at most one report per field. |
| PropertyDataComparison.SplitCamel | frontend/components/PropertyDataComparison.tsx:99 | The first replace keeps the first character. |
| PropertyDataComparison.SplitCamelInsertsSpaces | frontend/components/PropertyDataComparison.tsx:99 | The first replace only inserts spaces, exactly one per lower→upper boundary, and leaves no boundary behind. |
| PropertyDataComparison.SplitCamelFixesNoBoundary | frontend/components/PropertyDataComparison.tsx:99 | A string without a lower→upper boundary is left unchanged. |
| PropertyDataComparison.CapitalizeKeepsNoBoundary | frontend/components/PropertyDataComparison.tsx:100 | Upper-casing a leading lower-case letter creates no new boundary. |
| PropertyDataComparison.FormatFieldName | frontend/components/PropertyDataComparison.tsx:97-101 | The displayed field name; `FormatFieldNameShape` and `FormatFieldNameIdempotent` state its form. |
| PropertyDataComparison.FormatFieldNameIdempotent | frontend/components/PropertyDataComparison.tsx:97-101 | Formatting twice gives the same name as formatting once. |
| PropertyDataComparison.FormatFieldNameShape | frontend/components/PropertyDataComparison.tsx:97-101 | The formatted name is longer by the number of boundaries and never starts with a lower-case letter. After the first character it equals the split name. |
| PropertyDataComparison.FieldClass | frontend/components/PropertyDataComparison.tsx:103-106 | The class is the highlight class or "". |
| PropertyDataComparison.FieldClassOfReport | frontend/components/PropertyDataComparison.tsx:103-106 | On the component's own report, a field is highlighted if and only if it is a key of the first source and the sources disagree on it; otherwise the class is "". |
| Dedup.DistinctMembers | frontend/components/PropertyDataComparison.tsx:80 | `Array.from(new Set(values))` holds exactly the elements of `values`. |
| Dedup.DistinctFirstSeenOrder | frontend/components/PropertyDataComparison.tsx:80 | The distinct values appear in the order of their first occurrence. |
| Dedup.DistinctAtMostOneIffAllEqual | frontend/components/PropertyDataComparison.tsx:80-82 | There is at most one distinct value if and only if every value equals the first. |
| Summarize.Subtype | frontend/app/api/summarize/route.ts:29 | `split("/")[1]` is missing exactly when the type has no slash, and it contains no slash. |
| Summarize.GetDocumentFormat | frontend/app/api/summarize/route.ts:28-51 | It throws exactly when the type has no slash. |
| Summarize.GetImageFormat | frontend/app/api/summarize/route.ts:53-67 | It throws exactly when the type has no slash. |
| Summarize.DocumentFormatTable | frontend/app/api/summarize/route.ts:30-50 | Each document format is produced by its own subtype name, and a non-TXT result names its subtype. The result is TXT if and only if the subtype is none of pdf, html, docx, xlsx, csv, xls, doc (so "txt" and everything unknown give TXT). |
| Summarize.ImageFormatTable | frontend/app/api/summarize/route.ts:55-66 | Each image format is produced by its own subtype name. The result is JPEG if and only if the subtype is none of png, webp, gif, so "jpg" falls back to JPEG. |
| Summarize.FormatsIgnoreCase | frontend/app/api/summarize/route.ts:28-67 | Both format functions give the same answer for a type and for its lower-cased form. |
| Summarize.SubtypeOfType | frontend/app/api/summarize/route.ts:29 | For `main/sub` the subtype is `sub`. |
| Summarize.SubtypeIgnoresRest | frontend/app/api/summarize/route.ts:29 | Only the text between the first and the second slash matters. |
| Summarize.LongSubtypesFallBack | frontend/app/api/summarize/route.ts:28-67 | A subtype longer than four characters gives TXT and JPEG. So the real DOCX media type (`application/vnd.openxmlformats-officedocument.wordprocessingml.document`) gives TXT, and `image/svg+xml` gives JPEG. |
| Summarize.FirstMatchFrom | frontend/app/api/summarize/route.ts:71 | The scan finds the first position from which the pattern `\.[^/.]+$` matches, or reports that there is none. |
| Summarize.RemoveFileExtension | frontend/app/api/summarize/route.ts:70-72 | The result is always a prefix of the name. |
| Summarize.LastIndexOf | frontend/app/api/summarize/route.ts:71 | The last occurrence of a character: present exactly when the character occurs, and no later occurrence exists. |
| Summarize.MatchIsLastDot | frontend/app/api/summarize/route.ts:71 | A match of the pattern starts at the last dot. |
| Summarize.LastDotMatches | frontend/app/api/summarize/route.ts:71 | The last dot is a match when at least one character follows it and none of them is a slash. |
| Summarize.RemoveFileExtensionAtLastDot | frontend/app/api/summarize/route.ts:70-72 | The last dot and what follows are dropped exactly when at least one character follows and none is a slash; otherwise the name is unchanged. |
| Summarize.ToBytes | frontend/app/api/summarize/route.ts:84 | `new Uint8Array(content)` keeps the length and takes every whole number modulo 256. |
| Summarize.ToBytesKeepsBytes | frontend/app/api/summarize/route.ts:84 | Content that is already bytes is copied unchanged. |
| Summarize.GetFileContent | frontend/app/api/summarize/route.ts:76-99 | It throws exactly when the media type has no slash. |
| Summarize.FileContentShape | frontend/app/api/summarize/route.ts:76-99 | A name with an image extension gives an image block whose format comes from the media type. Any other name gives a document block named without its extension. Both carry the bytes. |
| Summarize.SplitLastPiece | frontend/app/api/summarize/route.ts:77 | `split(".").pop()` is the text after the last dot, or the whole name when it has no dot, as found by the independent last-occurrence search. |
| Summarize.ImageNames | frontend/app/api/summarize/route.ts:74-79 | A name counts as an image if and only if the lower-cased text after its last dot, or the whole name when it has no dot, is gif, jpeg, png, webp or jpg. |
| Summarize.FileBlocks | frontend/app/api/summarize/route.ts:113 | `files.map(getFileContent)` gives one block per file. |
| Summarize.FileBlocksShape | frontend/app/api/summarize/route.ts:113 | The map succeeds exactly when every type has a slash, and block i is the content of file i. |
| Summarize.MessageShape | frontend/app/api/summarize/route.ts:106-116 | Assembly succeeds exactly when every type has a slash. The result is then one user message: the prompt text first, then one block per file in input order. |
| Summarize.BuildMessages | frontend/app/api/summarize/route.ts:106-117 | Builds the single user message; `MessageShape` proves it is built exactly when every media type has a slash, holding the prompt and then one block per file in order. |
| Summarize.ReplyText | frontend/app/api/summarize/route.ts:128-138 | The first content block's text when there is one, else "No response generated.". |
| Summarize.Post | frontend/app/api/summarize/route.ts:101-158 | The `POST` handler, with the Bedrock call as a parameter; `PostOutcome` states the request it sends and the response it gives. |
| Summarize.PostOutcome | frontend/app/api/summarize/route.ts:101-158 | The handler itself throws exactly when some media type has no slash, since assembly happens before the `try`. Otherwise it sends one request for the Claude 3 Haiku model with at most 4096 tokens, temperature 0.3 and top-p 0.9, carrying the single user message that starts with the prompt. It answers 200 with the reply text if and only if the call returned, and 500 with "Failed to generate summary" when the call threw. |
| Bedrock.VisitReference | frontend/app/api/bedrock/route.ts:37-50 | The inner callback appends the reference's marker and its text when the text is non-empty. The URL list becomes the distinct URIs seen so far, with this reference's S3 URI when it has one. |
| Bedrock.VisitCitation | frontend/app/api/bedrock/route.ts:36-52 | The inner loop over a citation's references extends both accumulators as the specification functions `Markdown` and `Uris` do for those references. |
| Bedrock.CollectCitations | frontend/app/api/bedrock/route.ts:34-52 | The nested loops compute the markdown of all references, citation by citation, and the distinct URIs in first-seen order. |
| Bedrock.KnowledgeBaseAnswer | frontend/app/api/bedrock/route.ts:30-65 | The answer the route gives for an SDK reply; `AnswerContract` states when there is one and what its fields hold. |
| Bedrock.CallBedrockKnowledgeBase | frontend/app/api/bedrock/route.ts:30-65 | The method returns the answer that `KnowledgeBaseAnswer` specifies for what `send` produced. |
| Bedrock.AnswerContract | frontend/app/api/bedrock/route.ts:30-65 | There is no answer exactly when the call throws or has no output. Otherwise `citations` and `markdownCitations` are the same markdown, which is "" with an empty URL list when no reference was retrieved. `urls` has no duplicates and contains a URI if and only if some reference has an S3 location with that non-empty URI. |
| Bedrock.UrlsInFirstSeenOrder | frontend/app/api/bedrock/route.ts:35-59 | URLs are listed in the order they were first added to the set. |
| Bedrock.UrisFromS3 | frontend/app/api/bedrock/route.ts:45-49 | A URI is offered to the set if and only if some reference's location type is exactly "S3" and its URI is non-empty. |
| Bedrock.MarkersCountReferences | frontend/app/api/bedrock/route.ts:36-41 | When no reference text contains `*`, the markdown holds three `*` per reference, so the `***` markers count the references. |
| Bedrock.StarsOfPiece | frontend/app/api/bedrock/route.ts:38-43 | One reference contributes exactly three `*` when its text has none. |
| Bedrock.MarkdownStep | frontend/app/api/bedrock/route.ts:38-43 | Visiting a reference appends "\n\n***\n\n <br>", then "\n\n  " and the text only when the text is non-empty. |
| Bedrock.MarkdownPrefix | frontend/app/api/bedrock/route.ts:34-43 | The markdown only grows: each earlier state is a prefix of the final string. |
| Upload.PushEntry | frontend/app/api/upload/route.ts:52-60 | The callback appends a single entry's file when present, and each present file of an array entry in order. |
| Upload.FlattenFiles | frontend/app/api/upload/route.ts:50-60 | The nested loops compute `Flatten`: the entries in order, each contributing its present files in order. |
| Upload.FlattenSnoc | frontend/app/api/upload/route.ts:52-60 | Visiting one more entry appends exactly what that entry holds. |
| Upload.PresentSnoc | frontend/app/api/upload/route.ts:54-56 | Within an array, the present files keep their order. |
| Upload.FlattenLength | frontend/app/api/upload/route.ts:50-60 | The flattened list has one element per present file, counted independently. |
| Upload.PresentLength | frontend/app/api/upload/route.ts:54-56 | An array contributes as many files as it has present positions. |
| Upload.FlattenMembers | frontend/app/api/upload/route.ts:50-60 | A file is in `fileArray` if and only if some entry holds it, alone or in an array. |
| Upload.PresentMembers | frontend/app/api/upload/route.ts:54-56 | A file is among an array's present files if and only if the array holds it. |
| Upload.Post | frontend/app/api/upload/route.ts:45-69 | The handler's response is the one that `Outcome` specifies. |
| Upload.UploadFile | frontend/app/api/upload/route.ts:21-32 | Reads the file and uploads it under its original name with its mimetype; `PostContract` states this for every uploaded file. |
| Upload.UploadAllShape | frontend/app/api/upload/route.ts:62-63 | All uploads succeed together or the whole fails. On success there is one result per file, in file order. |
| Upload.PostContract | frontend/app/api/upload/route.ts:21-69 | The response is 200 if and only if parsing, every read and every upload succeed; otherwise it is 500 with "Error uploading the files". On 200 there is one result per present file, in order, and each upload used the file's original name as key and its mimetype as content type. |
| Uploader.FileUpload.constructor | frontend/components/uploader.tsx:7-8 | The component starts with no files and an empty progress map. |
| Uploader.FileUpload.HandleFileChange | frontend/components/uploader.tsx:10-14 | A given file list, even an empty one, replaces the selection. Without one nothing changes. |
| Uploader.InitialProgress | frontend/components/uploader.tsx:16-19 | The loop builds a map whose keys are exactly the selected names, all at 0. |
| Uploader.FileUpload.UploadFiles | frontend/components/uploader.tsx:15-20 | The progress map is replaced by one whose keys are exactly the selected names, all at 0. Earlier entries are dropped, and the map stays within 0..100. |
| Uploader.NameSetSize | frontend/components/uploader.tsx:17-19 | Files sharing a name share one entry. There are at most as many entries as files, and exactly as many if and only if no name repeats. |
| Uploader.FileUpload.OnProgress | frontend/components/uploader.tsx:33-40 | With a computable length, only the event's own entry changes, to the rounded percentage. Without one nothing changes. Every other entry is untouched, and the 0..100 bound is kept when loaded ≤ total. |
| Uploader.RoundPercentBounds | frontend/components/uploader.tsx:37 | `Math.round(100 * loaded / total)` lies in 0..100 when loaded ≤ total. It is 0 at the start and 100 at the end. |
| Uploader.RoundPercentMonotone | frontend/components/uploader.tsx:37 | More bytes never show a smaller percentage. |
| Uploader.Shown | frontend/components/uploader.tsx:54 | The display falls back to 0 for a missing or NaN entry (both falsy) and shows any other entry as stored. |
| Uploader.ShownInRange | frontend/components/uploader.tsx:54 | While the map is within bounds, every file shows a value in 0..100. |
| FileInput.FilePicker.constructor | frontend/components/ui/input.tsx:10 | The initial label is "No file chosen" and nothing has been delivered. |
| FileInput.FilePicker.HandleChange | frontend/components/ui/input.tsx:12-22 | The label becomes `Label(files)`. The selection, null included, is appended to what the callback received exactly when there is a callback. |
| FileInput.LabelCases | frontend/components/ui/input.tsx:14-18 | A null or empty selection shows "No file chosen", and one file shows its name. More files show their count in decimal digits, without a leading zero, that read back as the count, followed by " files selected". |
| Text.DecimalRoundTrip | frontend/components/ui/input.tsx:15 | A number's decimal numeral is made of digits and reads back as the number. |
| MockChat.MockConversationAlternates | frontend/components/MockChat.tsx:13-32 | The opening conversation has four messages, alternating user and assistant and starting with the user. |
| MockChat.Chat.constructor | frontend/components/MockChat.tsx:35-37 | The chat starts closed, with the opening conversation, an empty input and no reply pending. |
| MockChat.Chat.Type | frontend/components/MockChat.tsx:99 | Typing sets the input and nothing else. |
| MockChat.Chat.SendMessage | frontend/components/MockChat.tsx:45-62 | Input that trims to nothing changes nothing. Otherwise the untrimmed input is appended as one user message, the input is cleared and one reply is scheduled. The chat's invariant is kept. |
| MockChat.Chat.DeliverReply | frontend/components/MockChat.tsx:51-60 | The delayed reply appends exactly one assistant message with the apology text to the current list. |
| MockChat.Chat.VisibilityChanged | frontend/components/MockChat.tsx:39-43 | Becoming visible opens the chat, and becoming hidden leaves `isOpen` as it was. |
| MockChat.Chat.ToggleOpen | frontend/components/MockChat.tsx:70 | A header click toggles `isOpen` and changes nothing else. |
| Text.TrimEmptyIffBlank | frontend/components/MockChat.tsx:47 | `trim()` gives "" if and only if the input is all white space. |
| Text.TrimUnchanged | frontend/components/Pricing.tsx:158 | A string with no white space at either end is unchanged by `trim()`. |
| Pricing.RiskScoreColor | frontend/components/Pricing.tsx:62-66 | The colour is red, yellow or blue. |
| Pricing.RiskScoreBands | frontend/components/Pricing.tsx:62-66 | Red if and only if score ≤ 2, yellow if and only if 2 < score ≤ 4, blue if and only if score > 4. The bands cover every score without overlap. |
| Pricing.LegendLevel | frontend/components/Pricing.tsx:96 | The legend gives a level exactly for the whole scores 0..5. |
| Pricing.ColorMatchesLegend | frontend/components/Pricing.tsx:96 | On the whole scores 0..5 the colour of `getRiskScoreColor` is the colour of the legend's level (0-2 High, 3-4 Medium, 5 Low). |
| Pricing.RiskScoreWidth | frontend/components/Pricing.tsx:68-70 | The bar width for a whole score; `RiskScoreWidthValue` proves it is a whole percentage of 20 per point. |
| Pricing.RiskScoreWidthValue | frontend/components/Pricing.tsx:68-70 | The width is a digit string followed by "%", and it reads back as 20 per point: "0%" at 0 and "100%" at 5. |
| Pricing.SpaceBeforeUpper | frontend/components/Pricing.tsx:158 | The replacement is empty exactly for the empty key. |
| Pricing.SpaceBeforeUpperShape | frontend/components/Pricing.tsx:158 | The replacement only inserts spaces, one per upper-case letter, each directly before its letter, and it keeps the last character last. |
| Pricing.SpaceBeforeUpperNoUpper | frontend/components/Pricing.tsx:158 | A key without upper-case letters is left unchanged by the replacement. |
| Pricing.ExposureLabelUnchanged | frontend/components/Pricing.tsx:158 | A key with no upper-case letter and no white space at either end is shown as it is. |
| Pricing.ExposureLabelTrimsLeadingSpace | frontend/components/Pricing.tsx:158 | For a key that neither starts nor ends with white space, the trim removes only the space inserted before a leading upper-case letter. |
| ClaimsHistory.StatusColor | frontend/components/ClaimsHistory.tsx:190-199 | The colour is green, yellow or gray. |
| ClaimsHistory.StatusColorCases | frontend/components/ClaimsHistory.tsx:190-199 | The colour depends only on the lower-cased status: green if and only if it is "closed", yellow if and only if it is "reopened", gray for everything else. |
| ClaimsHistory.StatusColorAnyCase | frontend/components/ClaimsHistory.tsx:191-195 | "closed" in any letter case gives green, and "reopened" in any letter case gives yellow. |
| ClaimsHistory.ClaimsConsistent | frontend/components/ClaimsHistory.tsx:33-181 | Every claim's incurred loss is paid loss plus expense plus outstanding. Closed claims owe nothing and have reopen date "N/A"; reopened claims owe something and carry an MM/DD/YYYY reopen date. Every status is "Closed" or "Reopened". |
| ClaimsHistory.ClaimsBadges | frontend/components/ClaimsHistory.tsx:240-242 | Every badge in the table is green for a closed claim and yellow for a reopened one. |
| ClaimsHistory.ClaimKeysDistinct | frontend/components/ClaimsHistory.tsx:33-181 | The occurrence ids used as row keys are pairwise distinct. |

## Left out

- The AWS SDK clients and their `send`/`upload` calls, formidable's form parsing, `fs.readFile` and the XHR transport are outside calls. They appear only as their results (a value or a thrown exception), passed in as parameters.
- `Promise.all` concurrency, the order in which uploads complete, and the one-second `setTimeout` of the mock chat. The model reads `Promise.all` as "all results in order, or a failure". A scheduled chat reply arrives when `MockChat.Chat.DeliverReply` is called, and `pendingReplies` counts replies not yet delivered.
- `console.log`, the environment variables (bucket name, knowledge-base id, credentials) and the request/response JSON encoding. The bucket name is a parameter of the upload functions.
- Pricing.RiskScoreWidth: only the whole scores 0..5 are modelled. For other scores `(score / 5) * 100` is a floating-point number whose printed form the model does not capture.
- Uploader.RoundPercent: `Math.round(100 * loaded / total)` is modelled in exact rational arithmetic, as floor of (200·loaded + total) / (2·total). Floating-point rounding of the quotient is not modelled. A zero total gives NaN or Infinity as in JavaScript.
- Text.Lower: `toLowerCase` is modelled on ASCII letters only. Every keyword the code compares a lower-cased string against is plain ASCII without the letter k, so the classifications are unaffected. Full Unicode case mapping is not modelled.
- Uploader.Shown / Uploader.InitialProgress: the progress map is modelled as a `map<string, ...>`, not as a plain JavaScript `{}` object. On such an object the name "__proto__" creates no key, and names such as "constructor" or "toString" read an inherited function rather than a missing entry that falls back to 0.
- Summarize.ToBytes: the content is modelled as whole numbers (`seq<int>`). `Uint8Array` first truncates a fractional number toward zero (1.7 gives 1, -1.5 gives 255) and turns NaN and ±Infinity into 0 (a JSON literal such as 1e400 parses to Infinity); neither step is modelled.
- Upload.File: formidable types `originalFilename` and `mimetype` as `string | null`, and the route asserts both non-null with `!` (frontend/app/api/upload/route.ts:24-27). The model gives every file a name and a type, so a null name or type is not modelled.
- PropertyDataComparison.Get: `source.data[field]` on a plain JavaScript object reads an inherited `Object.prototype` member (such as `constructor`, `toString`, `hasOwnProperty` or `__proto__`) when the source has no own key of that name. The model reads `undefined` there. Which fields are reported is unchanged, since only the first source's own keys are visited, but a report's `values` can differ: for the field `toString`, a second source without it contributes the inherited function, not `undefined`.
- PropertyDataComparison.Value: numbers are compared by equality only, as `Set` does. NaN and the sign of zero are not modelled.
- The confidence bars and `toFixed` percentages, `Intl.NumberFormat` currency formatting, and all JSX and CSS rendering. That includes the CSS `capitalize` applied to field names and exposure labels, and the `truncate` of long text.
- frontend/app/api/pdf/route.tsx is not part of this model: the route draws a single page with pdf-lib, leaves line wrapping to the library and prints a fixed "Page 1 of 1".
- frontend/components/chatbox.tsx, PropertyDetails.tsx, ExternalData.tsx, SidePannel.tsx and the page components are not part of this model. They are static data, navigation or `fetch` calls.
