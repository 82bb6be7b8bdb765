# hh_bot enrichment step, modelled in Dafny

hh_bot fetches job listings, stores them, and later enriches each
unprocessed listing by sending its description to a language-model API.
The model's reply carries a "thinking" trace in a `<think>…</think>` block,
followed by the cover letter. This project models the enrichment step in
`processor/processor.go` and proves what it does:

- `wrappers.dfy`: `Option` and `Result`.
- `html.dfy` (module `Html`): `RemoveHTMLTags`. It is a left-to-right scanner
  that gives the same result as replacing every leftmost match of `<[^>]*>` with
  nothing.
- `think.dfy` (module `Think`): `strings.TrimSpace` over the whitespace set of
  `unicode.IsSpace`, and `reThink`. `reThink` is a scanner for the leftmost
  match of `<think>(?s)(.*?)</think>` and the leftmost match of
  `</think>(?s)(.*)`.
- `decimal.dfy` (module `Decimal`): `strconv.Atoi` on a 64-bit platform. It
  takes an optional sign and at least one digit, and rejects values outside
  the int64 range.
- `api.dfy` (module `Api`): the request and response records,
  `createRequestPayload` and `decodeApiResponse`.
- `processor.dfy` (module `Processor`) holds the retry loop of
  `ProcessJobDesctription` (spelled `ProcessJobDescription` here) and
  `ProcessJob`. Each API attempt is given as an `Outcome`, which stands in for
  the network:
  - a transport error;
  - or a response with its status, its `retry-after` header (`""` when
    missing), its decoded JSON body (`None` when decoding fails), its raw body
    (`None` when reading fails), and whether the 30-second deadline fires
    during the rate-limit wait.

  The method runs the loop as written, with `continue` and early returns. Its
  result, call count and waits are tied to `DescriptionRun`, a closed-form
  account of the same call. `React` gives each outcome's class: return, record
  `lastErr`, or wait.

When all three attempts are 429 responses that wait out a parseable delay,
no branch assigns `lastErr` (processor/processor.go:72-88). The final "max
retries exceeded" error at processor/processor.go:101 therefore wraps nil
(`RetriesExceeded(3, None)` here). `NilLastErrIff` and
`PersistentRateLimitFails` state this.

## Model

| member | source | states |
|---|---|---|
| Html.RemoveHTMLTags | processor/processor.go:21-24 | the output is no longer than the input and uses only characters of the input (multiset inclusion) |
| Html.RemoveHTMLTagsDropsTag | processor/processor.go:22-23 | a complete tag `<…>` (no `>` inside) at the front is deleted whole |
| Html.RemoveHTMLTagsKeepsChar | processor/processor.go:22-23 | a first character other than `<` is kept, in place |
| Html.RemoveHTMLTagsSpan | processor/processor.go:21-24 | text without `<` followed by a tag comes through unchanged, and the tag is deleted |
| Html.RemoveHTMLTagsKeepsTagFree | processor/processor.go:21-24 | a string in which no `<` has a later `>` is returned unchanged |
| Html.RemoveHTMLTagsWithoutLt | processor/processor.go:21-24 | a string with no `<` is returned unchanged |
| Html.RemoveHTMLTagsIsTagFree | processor/processor.go:21-24 | no `<` in the output has a `>` anywhere after it |
| Html.RemoveHTMLTagsFixedPointIff | processor/processor.go:21-24 | the output equals the input exactly when the input is tag-free (both directions) |
| Html.RemoveHTMLTagsIdempotent | processor/processor.go:21-24 | applying it twice is the same as applying it once |
| Think.TrimLeft | processor/processor.go:37 | the result is a suffix of the input, what was cut is all whitespace, and it starts with a non-space |
| Think.TrimRight | processor/processor.go:37 | the result is a prefix of the input, what was cut is all whitespace, and it ends with a non-space |
| Think.TrimSpace | processor/processor.go:37 | the result has no leading or trailing whitespace and is no longer than the input |
| Think.TrimSpaceInfix | processor/processor.go:37 | the result is the input with an all-space prefix and an all-space suffix removed |
| Think.TrimLeftOf | processor/processor.go:37 | left trimming removes exactly a whitespace prefix that is followed by a non-space |
| Think.TrimRightOf | processor/processor.go:37 | right trimming removes exactly a whitespace suffix that is preceded by a non-space |
| Think.TrimSpaceOf | processor/processor.go:37 | whitespace, then a trimmed string, then whitespace trims to that string |
| Think.TrimSpaceIdempotent | processor/processor.go:37 | trimming twice is the same as trimming once |
| Think.Find | processor/processor.go:27-31 | returns the first occurrence at or after a position, or None when there is none |
| Think.ThinkSpan | processor/processor.go:27-28 | a span it finds is a match of `<think>…</think>` |
| Think.ThinkSpanLeast | processor/processor.go:27-28 | when any match exists, the span found is the leftmost and, among those, the shortest |
| Think.ReThink | processor/processor.go:26-38 | fails only with the extraction error text; on success returns exactly two strings, and only when both patterns match; `ReThinkFailsIff`, `ReThinkThinking` and `ReThinkCoverLetter` characterise it fully |
| Think.ReThinkFailsIff | processor/processor.go:26-35 | fails, with the extraction error text, exactly when no `</think>` follows a `<think>` |
| Think.ReThinkThinking | processor/processor.go:27-37 | on success, two strings; element 0 is the trimmed text of the leftmost-shortest `<think>…</think>` match |
| Think.ReThinkCoverLetter | processor/processor.go:30-37 | on success, element 1 is the trimmed text after the first `</think>` anywhere in the input |
| Decimal.Atoi | processor/processor.go:73-74 | succeeds exactly on an optional sign followed by one or more digits whose value fits int64, and returns that value |
| Decimal.AtoiItoa | processor/processor.go:73-74 | Atoi returns every int64 from its decimal form, as printed by the helper `Itoa` (round trip) |
| Decimal.AtoiRejectsEmptyAndBareSign | processor/processor.go:73-77 | a missing header (`""`) and a bare sign do not parse |
| Api.CreateRequestPayload | processor/processor.go:118-140 | fails exactly when serialization fails; otherwise the given model and exactly two messages, (system, prompt) then (user, text) |
| Api.DecodeApiResponse | processor/processor.go:104-116 | succeeds exactly on a decoded body with at least one choice, with choice 0's content; an undecodable body and an empty choice list are distinct errors |
| Processor.React | processor/processor.go:55-98 | the reaction to one attempt: only a 200 returns, only a 429 waits, and a wait is cut short exactly when the deadline fires; `ReactClassifies` gives every branch |
| Processor.ReactClassifies | processor/processor.go:55-98 | only a good 200 returns, with its content; only a 429 with a parseable header waits, for that many seconds, cut short exactly when the deadline fires; transport errors, bad 200 bodies, bad headers and other statuses record their own error |
| Processor.DescriptionRun | processor/processor.go:40-101 | at most MaxRetries calls and at most one wait per call; no call exactly when the payload fails; the only failures with a valid payload are the deadline and retries exhausted |
| Processor.ProcessJobDescription | processor/processor.go:40-101 | the loop's result, call count and waits are those of DescriptionRun, and every call sends the same two-message request |
| Processor.FirstGoodResponseReturned | processor/processor.go:63-70 | the first good 200 response (with no earlier stop) returns choice 0's content after exactly that many calls |
| Processor.SucceedsIff | processor/processor.go:63-70 | the call succeeds exactly when its last call got a good 200 response, and returns that response's content |
| Processor.FailuresIff | processor/processor.go:83-101 | deadline error exactly when the last call waited on a 429 and the deadline fired; retries exceeded exactly when no attempt stopped the loop; no other failure |
| Processor.NothingRecordedOnlyForWaits | processor/processor.go:53-99 | with no attempt stopping the loop, lastErr stays nil exactly when every attempt waited |
| Processor.NilLastErrIff | processor/processor.go:101 | the error wraps nil exactly when every response was a 429 with a parseable header whose wait completed |
| Processor.PersistentRateLimitFails | processor/processor_test.go:63-70 | three 429s with `retry-after: 3` and no deadline: three calls, waits of 3, 3 and 3 seconds, then retries exceeded wrapping nil |
| Processor.RateLimitThenSuccess | processor/processor.go:72-88 | a 429 with `retry-after: 2`, then a good 200: one 2-second wait, then that 200's content after two calls |
| Processor.TransportFailuresThenSuccess | processor/processor.go:55-70 | two transport errors, then a good 200: success after three calls, with no wait |
| Processor.ProcessJob | processor/processor.go:160-174 | call errors pass through unchanged; a reply without a think block fails with the extraction error; on success, reThink's pair of two strings is returned |

## Left out

- `makeGroqApiCall` (processor/processor.go:142-158) and all HTTP plumbing: each attempt's result is an `Outcome` value given as input.
- Real clocks and the `select` race between `time.After` and `ctx.Done()`: a flag on each outcome says whether the deadline fires during that rate-limit wait. A deadline that expires during an API call shows up as that attempt's transport error.
- `time.Duration(retryTime) * time.Second` overflow for huge header values: the wait is recorded as the parsed number of seconds.
- `json.Marshal` and `json.Decoder`: serialization is a boolean input, `marshalOk`. It cannot fail for these string-only records, but the error path is kept. A decoded body is `Option<ApiResponse>`.
- Error message texts and `fmt.Errorf` wrapping: each error is a constructor of `Error` that carries its cause.
- `defer resp.Body.Close()`, the `fmt.Printf` logging, and the `body` variable's reuse across attempts.
- `strconv.Atoi` on 32-bit platforms: the int64 range is assumed.
- `strings.TrimSpace` works on UTF-8 bytes, so invalid UTF-8 is out of scope: strings are sequences of code points.
- The rest of the repository: `jobfetcher`, `storage`, `main.go`, `config` and the JSON schema in `models` (float fields, `CustomTime`). These are I/O and database plumbing, outside this model.
