# Bulk article uploader: a verified model of its core

`transform.go` uploads a directory (or a retry list) of JSON article files to
an HTTP endpoint, `/omnipub`. It uses a pool of workers to do this. For each
article it does four things:

- renders an HTML document, neutralising `<script` and `</script>` in the
  content;
- builds a small metadata record;
- posts both as a multipart form, with an optional `collection_id`;
- counts successes and failures.

It can also write the failed paths to a file, and that file can be fed back in
as a retry list.

This project models the deterministic logic inside it and proves what that
logic promises. It is organised as eight modules under `src/`:

| module | file | models |
|---|---|---|
| `Wrappers` | `wrappers.dfy` | `Option`, `Result` and `Outcome` values |
| `Strings` | `strings.dfy` | `TrimSuffix` and `TrimSpace`, which the uploader calls, plus the prefix, suffix, substring and `IndexByte` helpers in which the model's properties are stated |
| `Html` | `html.dfy` | `html.EscapeString` and a decoder for its five references |
| `Decimal` | `decimal.dfy` | `%d` formatting of an integer, and its parser |
| `Render` | `render.dfy` | `cleanHTML`, `buildHTML`, `buildMetadata` |
| `Submit` | `submit.dfy` | `NewTransformer`, the request `postItem` sends and how it classifies the answer, and `processFile` |
| `FileList` | `filelist.dfy` | the line format of `readFileList` and `saveFilesToFile`, as methods with loops |
| `Upload` | `upload.dfy` | the run in `main`, with a `RunSummary` class for the counters and the failure list |

The model is pure functions and lemmas except in two places:

- The two file-list routines are methods with `while` loops, each proved
  equal to a specification function.
- The worker bookkeeping is a class whose `Record` method updates `ok`,
  `fail` and `failures` in place. `Upload.Drain` feeds every queued file
  through it, and `Upload.Run` calls `Drain` when at least one worker is
  started.

Things the program gets from outside become parameters:

- the value of the API key variable;
- the decoded article, or its decoding error;
- the response to a request, as a function from request to response;
- the outcome of each item.

## Model

| member | source | states |
|---|---|---|
| Strings.TrimSuffix | transform.go:49 | one trailing suffix is removed when present, otherwise the string is unchanged |
| Strings.TrimSpace | transform.go:139 | the result is the input with all leading and trailing white space cut off: it sits inside the input, everything around it is white space, and its own ends are not white space |
| Strings.TrimmedIff | transform.go:277 | a string is left unchanged by trimming exactly when it neither starts nor ends with white space |
| Strings.TrimSpaceIdempotent | transform.go:277 | trimming an already trimmed string changes nothing |
| Strings.TrimSpaceChars | transform.go:277 | trimming introduces no character that was not in the input |
| Html.EscapeString | transform.go:83-85 | no `<`, `>`, `'` or `"` survives escaping; text without any of the five special characters is returned unchanged; escaping never shortens text |
| Html.EscapeRoundTrip | transform.go:83-85 | decoding the five character references recovers the escaped text exactly |
| Html.EscapeInjective | transform.go:83-85 | two texts give the same escaped form if and only if they are equal |
| Decimal.DecimalRoundTrip | transform.go:118 | the `%d` text of any integer, negative ones included, reads back as that integer |
| Decimal.DecimalText | transform.go:118 | the `%d` text is never empty; it starts with `-` exactly for a negative value; a non-negative value is all digits. `Decimal.DecimalRoundTrip` proves it reads back |
| Render.CleanHtml | transform.go:75-79 | no contract of its own: it is the one left-to-right replacement pass. Its guarantees are the `CleanHtml…` lemmas in the rows below |
| Render.CleanHtmlSafe | transform.go:75-79 | the result never holds `<script` or `</script>`, for any input |
| Render.CleanHtmlPlainPrefix | transform.go:75-79 | a leading run of the result without `<` or `&` was copied unchanged from the input |
| Render.CleanHtmlIdentity | transform.go:75-79 | input holding neither tag is returned unchanged |
| Render.CleanHtmlUnchangedIff | transform.go:75-79 | the input is returned unchanged if and only if it holds neither tag |
| Render.CleanHtmlIdempotent | transform.go:75-79 | neutralising twice gives the same result as neutralising once |
| Render.CleanHtmlPlain | transform.go:75-79 | a run without `<` passes through unchanged, whatever follows it |
| Render.CleanHtmlTags | transform.go:76 | `<script` becomes `&lt;script` and `</script>` becomes `&lt;/script&gt;`, and the rewrite carries on after the tag |
| Render.CleanHtmlScriptElement | transform.go:75-79 | an inline script element keeps its text between the two escaped tags |
| Render.CleanHtmlOtherLt | transform.go:76-77 | a `<` that starts neither `<script` nor `</script>` is copied, and the rewrite carries on after it |
| Render.CleanHtmlBoldExample | transform.go:75-79 | the whole input `<b>bold</b>` comes out unchanged |
| Render.CleanHtmlMarkup | transform.go:75-79 | any other markup, a `<` starting neither tag and the text up to the next `<`, is copied unchanged whatever follows it, including text that holds a tag |
| Render.BuildHtml | transform.go:81-95 | no contract of its own: it joins the heading, the excerpt paragraph, the content division and the metadata block. Its guarantees are `BuildHtmlLayout`, `BuildHtmlRecoversTitleAndExcerpt`, `BuildHtmlAvoids` and `BuildHtmlContainsIff` |
| Render.BuildHtmlLayout | transform.go:81-95 | the document opens with the `<h1>` heading of the escaped title; a `<p>` follows exactly when the excerpt is non-empty; the content `<div>` comes next; the metadata block ends the document |
| Render.TitleOfHeading | transform.go:83 | any document that starts with the heading yields the original title when its heading is read back and decoded |
| Render.ExcerptOfHeading | transform.go:84-86 | after the heading, the excerpt paragraph, which is absent for an empty excerpt, and the `<div>` yield the original excerpt when read back |
| Render.BuildHtmlRecoversTitleAndExcerpt | transform.go:81-95 | the title and the excerpt can be recovered exactly from the rendered document, so escaping loses nothing |
| Render.SourceUrlShowsLink | transform.go:91 | the link appears verbatim twice in the source paragraph, as the `href` target and as the anchor text |
| Render.BuildHtmlAvoids | transform.go:81-95 | when the link and both dates are free of a script tag, so is the whole document, whatever the title, excerpt and content contain |
| Render.BuildHtmlContainsIff | transform.go:81-95 | the document holds a script tag if and only if the link, the publish date or the updated date does |
| Render.BuildMetadata | transform.go:97-103 | the keys are exactly `title`, `creation_date` and `source_url`, holding the title, the publish date and the link |
| Render.BuildMetadataDependsOn | transform.go:97-103 | two articles have equal metadata if and only if they agree on title, publish date and link |
| Submit.NewTransformer | transform.go:48-56 | configuration fails, naming the variable, exactly when the key is empty; otherwise the credential is `Bearer ` followed by the key, and the base loses one trailing `/` if it has one |
| Submit.Endpoint | transform.go:122 | the URL starts with the base, ends with `/omnipub` and is exactly 8 characters longer than the base |
| Submit.EndpointOfBase | transform.go:122 | the endpoint is the base without its one trailing `/`, if any, followed by `/omnipub` |
| Submit.CollectionSelector | transform.go:223-227 | a collection is selected exactly when the flag is above zero, and it is the flag's value |
| Submit.FormFields | transform.go:114-119 | the form is `html_content`, then `metadata`, then `collection_id` in decimal only when a collection is given |
| Submit.FormFieldsForFlag | transform.go:114-119 | for a collection flag, the field names are `html_content` and `metadata`, plus `collection_id` exactly when the flag is above zero, and that field's text reads back as the flag |
| Submit.BuildRequest | transform.go:114-127 | the request goes to the base followed by `/omnipub`, carries the transformer's credential, and has the fields `html_content` and `metadata`, then `collection_id` exactly when a collection is given; the first two hold the document and the metadata |
| Submit.Limit | transform.go:138 | the result is the start of the input: all of it when it has at most `n` characters, otherwise exactly its first `n` |
| Submit.Classify | transform.go:130-139 | success exactly for a 2xx status; any other status becomes an error carrying that status and the trimmed first 4096 characters of the body; a transport error is passed on |
| Submit.HttpErrorDetailBounded | transform.go:138-139 | an error detail is at most 4096 characters long, comes from the start of the body, and has no white space at either end |
| Submit.TrimmedWithin | transform.go:139 | trimming yields a piece of the text that is no longer than it and has no white space at either end |
| Submit.ItemRequest | transform.go:156 | the item's request goes to the endpoint with the credential; its fields are the rendered document, the article's metadata and, exactly when the flag is above zero, `collection_id` holding the flag in decimal |
| Submit.ProcessFile | transform.go:144-157 | a file that cannot be opened or decoded fails with that error and is never posted; a failed post fails with the error `Classify` gives for the response |
| Submit.ProcessFileSucceedsIff | transform.go:144-157 | an item succeeds exactly when it decoded and its request drew a 2xx status; that request goes to the endpoint with the credential, the rendered document, the metadata, and a third field exactly when the flag is above zero |
| FileList.DropCR | transform.go:275 | one carriage return at the end of a line is dropped, and nothing else changes |
| FileList.ScanLines | transform.go:275-276 | no line produced by the scanner contains a line feed |
| FileList.ScanSegment | transform.go:275-276 | a segment ended by a line feed is one line, less one trailing carriage return, and scanning resumes after the line feed |
| FileList.ScanJoin | transform.go:275-276 | for text without carriage returns, the scanned lines written back one per line give the text again, plus a final line feed when the last line had none: the scanner splits at line feeds and drops nothing else |
| FileList.TrimAll | transform.go:277 | each entry is the corresponding line, trimmed |
| FileList.NonEmpty | transform.go:277-279 | no contract of its own: it keeps the non-empty entries in order. Its guarantees are `NonEmptyEntries` and `NonEmptyMembers` |
| FileList.NonEmptyEntries | transform.go:277-279 | each kept entry is one of the input entries and is not empty |
| FileList.NonEmptyMembers | transform.go:277-279 | a string is kept if and only if it is one of the entries and is not empty |
| FileList.Paths | transform.go:276-280 | no contract of its own: each line trimmed, blank ones dropped, order kept. Its guarantees are `PathsListed`, `PathsStep`, `RetryRoundTrip` and `FileList.ReadFileList` |
| FileList.PathsSnoc | transform.go:276-280 | a line added at the end of the file adds its trimmed text to the paths, unless that text is empty |
| FileList.PathsStep | transform.go:276-280 | one more line adds its trimmed text to the paths, unless that text is empty |
| FileList.PathsListed | transform.go:275-280 | every path read is non-empty, trimmed and free of line feeds |
| FileList.ReadFileList | transform.go:266-288 | the result is the trimmed, non-empty lines of the file in file order, and each of them is a listable path |
| FileList.Serialized | transform.go:299-304 | the text of a non-empty list ends with a line feed. `SerializedLength` gives its length and `RetryRoundTrip` shows it reads back as the list |
| FileList.SaveFilesToFile | transform.go:291-307 | the text written is every path followed by a line feed: one line feed per path and nothing else |
| FileList.SerializedLength | transform.go:299-304 | the text written is as long as all paths together plus one character per path |
| FileList.RetryRoundTrip | transform.go:266-307 | for non-empty, trimmed paths without line feeds, reading back the saved list gives exactly the original list |
| FileList.ReadWriteRead | transform.go:266-307 | saving a list that was just read and reading it again gives the same list |
| Upload.Inc | transform.go:229 | a counter increment wraps to zero past 2^64 - 1 and is otherwise one more |
| Upload.Successes | transform.go:238-240 | the success count never exceeds the number of items |
| Upload.FailedItems | transform.go:233-236 | the failure list is never longer than the queue. `FailedItemsIff` states which paths are in it and `CountsAddUp` how many |
| Upload.CountsAddUp | transform.go:228-240 | every item is counted once, either as a success or as a listed failure |
| Upload.FailedItemsIff | transform.go:228-237 | a path is in the failure list if and only if some queued item for it failed |
| Upload.CountStep | transform.go:228-240 | one finished item advances exactly one of the two counters, by one modulo 2^64 |
| Upload.TallyStep | transform.go:228-240 | one more `Record` keeps the tally of `Run`: the counters stay the success and failure counts of the items so far, modulo 2^64, and the failure list stays the failed items when saving |
| Upload.FinalCounts | transform.go:228-240 | below 2^64 items nothing wraps: the counters sum to the number of items, and the failure list is as long as the failure count |
| Upload.RunSummary.constructor | transform.go:204-210 | a run starts with both counters at zero and no failures |
| Upload.RunSummary.Record | transform.go:228-240 | a success increments `ok` only; a failure increments `fail` and, when saving, appends the path; failures are kept only when saving, one per failed item |
| Upload.Drain | transform.go:213-250 | after every queued file has been through a worker, the counters equal the numbers of successes and failures modulo 2^64, and the failure list holds exactly the failed files when saving and nothing otherwise |
| Upload.Run | transform.go:168-262 | an empty list returns before any item is processed. With `-workers` zero or less no worker starts, so the run reports 0 successes, 0 failures, no failure list and no failure file. Otherwise the counters equal the numbers of successes and failures modulo 2^64, and sum to the number of files when there are fewer than 2^64. When saving, the failure list holds exactly the failed files, one per failure; otherwise it is empty. A failure file, holding the serialised list, is written exactly when saving and something failed |

## Left out

- Concurrency is not modelled: the goroutines, the `jobs` channel, `sync.WaitGroup`, `atomic.AddUint64` and the failure mutex. `Upload.Drain` processes the queue sequentially in one order. The counts do not depend on the interleaving, but the order of `failures` across workers does, and that order is not modelled.
- The HTTP client is not modelled: the transport and its connection limits, timeouts, `http.NewRequestWithContext`, header cloning and `Content-Type`. What came back is a `Submit.Response` produced by a function of the request. A URL rejected by `http.NewRequestWithContext` is covered by `TransportFailed`.
- The multipart byte encoding is not modelled. A request carries its ordered list of fields.
- `json.Marshal` of the metadata is not modelled: a field's value keeps the map itself, as `Json`.
- `json.Decoder` is not modelled: `Submit.ProcessFile` receives the decoded article or the decoding error.
- `os.Open` failing is merged into that same decoding error.
- `os.Getenv`, `os.Create`, `filepath.Glob`, the buffered writer and its errors are not modelled. Neither is `os.Open` failing on the retry file, which the program treats as fatal.
  - The key variable's value is a parameter of `Submit.NewTransformer`.
  - `FileList.ReadFileList` takes the file's text and `FileList.SaveFilesToFile` returns the text it writes.
  - A failure to write the failure file, which the source only logs, is not modelled.
- Logging, the final `fmt.Printf` summary and the text of error messages are not modelled. Errors are values (`KeyNotSet`, `HttpError`, `TransportError`, `LoadError`), not formatted strings.
- Flag parsing and the `-backoff` sleep are not modelled. Of `-workers`, `Upload.Run` models only whether it is above zero; the number of goroutines is not modelled, since without concurrency it changes nothing.
- `Upload.Run` takes the file list as given, whether it came from a directory glob or a retry file. It also takes each item's outcome as given, one entry per queued file; `Submit.ProcessFileSucceedsIff` says what decides that outcome.
- `Strings.TrimSpace`: only the six ASCII white-space characters are removed. Go's version also removes Unicode white space such as U+0085 and U+00A0.
- The response body is a `string` with one character per byte. `Submit.Limit` cuts it at 4096 characters, as `io.LimitReader` cuts at 4096 bytes.
- `FileList.ScanLines` does not model `bufio.Scanner`'s 64 KiB token limit or its read error.
- FileList.ScanJoin: the write-back round trip is stated for text without carriage returns only, because the scanner drops one carriage return before each line feed; `FileList.DropCR` and `FileList.ScanSegment` state what happens to those.
- The endpoint URL, the credential and every article field are plain strings. No URL or date syntax is checked, which matches the source: link and dates are inserted verbatim.
