# Jira comment action — a verified model

This project models a GitHub Action that posts one status comment on a Jira
issue when a CI step finishes. It finds the issue key in the branch name.
It suppresses the comment when the pull request carries a configured skip
label. Otherwise it posts a fixed rich-text document holding the success or
the failure text to the issue's comment endpoint, authenticated with HTTP
Basic credentials built from the account email and API token.

Modules, one per component of `src/index.js`:

- `IssueKey`: `extractIssueKey`. It is written as an explicit scan over the branch name and proved against
  a specification predicate. `MatchesAt(s, i, j)` says the span `s[i..j)` is a word of
  `[A-Z]+-[0-9]+`. `IsFirstMatch` picks the leftmost such span and, for that start, the longest one.
  That is the match a backtracking matcher reports for the non-global regex.
- `Labels`: `shouldSkip` and the defaulting of the pull request's label list.
- `Payload`: the comment body as a datatype, with a reader (`MessageOf`) that is its inverse.
- `Base64`: the encoding of section 4 of RFC 4648, with a strict decoder. The model proves the round trip in both directions.
- `Utf8`: the encoding `Buffer.from` applies to `email:token` before Base64.
- `Strings`: first-occurrence `replace` and the decimal rendering of the status code.
- `Tracker`: the request (`POST`, target URL, `Authorization`, content type, body). It also holds the chunk-by-chunk
  accumulation of the response text (an imperative method with a loop invariant) and the status classification.
- `Action`: the decision part of `run` as a pure function `Decide` returning `NoKey | Skipped | Post`. `Run` maps
  the decision and the transport's response to the signal the runner sees.

The toolkit's inputs (`core.getInput`), `github.context` and the HTTP response are parameters. `core.warning`,
`console.log` and `core.setFailed` become the returned `Report`.

Two edge cases of the code, as modelled:

- When the `label` input is empty, the action skips exactly when some label has an empty name
  (`label.name === skipLabel`). `Labels.EmptySkipLabel` proves that it never skips when all label names are
  non-empty, as GitHub's are.
- Only the first `refs/heads/` of the ref is removed, because `String.prototype.replace` with a string pattern
  replaces one occurrence (`Strings.RemoveFirst`). A ref without it is taken as the branch name unchanged.

`Action.LowerCaseRefNoKey` proves that a ref without upper-case letters never yields a key. Merge refs of the
form `refs/pull/<n>/merge` are refs of this kind.

## Model

| member | source | states |
|---|---|---|
| `IssueKey.ExtractIssueKey` | src/index.js:5-8 | null only when no span of the branch name is a match; otherwise the text of the leftmost-longest match span |
| `IssueKey.MatchEndAt` | src/index.js:6 | one matcher attempt at a start position: when it succeeds, the match ends after the start and inside the string |
| `IssueKey.FindFrom` | src/index.js:6 | the scan over start positions: a span it reports starts at or after the first position tried and is non-empty |
| `IssueKey.UpperRunEnd` | src/index.js:6 | the end of the maximal run of `A`-`Z` from a position: everything before it is a letter, the character at it is not |
| `IssueKey.DigitRunEnd` | src/index.js:6 | the end of the maximal run of `0`-`9` from a position, which the greedy `[0-9]+` consumes |
| `IssueKey.MatchEndAtCorrect` | src/index.js:6 | one matcher attempt at a start position succeeds iff some match starts there, and then returns the longest such match |
| `IssueKey.FindFromCorrect` | src/index.js:6 | scanning start positions in order finds no match iff there is none, otherwise the leftmost-longest match |
| `IssueKey.NoKeyIffNoMatch` | src/index.js:5-8 | null is returned exactly when no substring of the branch name is `[A-Z]+-[0-9]+` |
| `IssueKey.KeyIsFirstMatch` | src/index.js:5-8 | a returned key is a substring of that shape, starting at the leftmost match, not preceded by a letter and not followed by a digit |
| `IssueKey.FirstMatchIsKey` | src/index.js:5-8 | conversely, the leftmost-longest match span is exactly the key returned |
| `IssueKey.KeyAfterPlainPrefix` | src/index.js:5-8 | a key behind a prefix without capitals and before a non-digit is the key returned |
| `IssueKey.NoUpperNoKey` | src/index.js:5-8 | a branch name without capital letters yields null |
| `IssueKey.MainBranchExample` | src/index.js:5-8 | `main` yields null |
| `IssueKey.FeatureBranchExample` | src/index.js:5-8 | `feature/ABC-123-fix` yields `ABC-123` |
| `Strings.IndexOfFrom` | src/index.js:73 | the search `replace` performs: the first position of the pattern at or after a start, or none |
| `Strings.RemoveFirst` | src/index.js:73 | the string with its first occurrence of the pattern cut out, or unchanged when there is none |
| `Strings.RemoveLeadingOccurrence` | src/index.js:73 | a string that starts with the pattern loses exactly that prefix |
| `Strings.Digits` | src/index.js:54 | the decimal rendering of a number is non-empty, all digits, without a leading zero |
| `Strings.DecimalString` | src/index.js:54 | `${statusCode}`: a non-empty run of `0`-`9` without a leading zero, preceded by `-` exactly for a negative code, whose digits read back as the magnitude |
| `Strings.DigitsRoundTrip` | src/index.js:54 | reading the rendered digits back gives the number |
| `Strings.DecimalStringInjective` | src/index.js:54 | different status codes render as different text |
| `Labels.LabelsOf` | src/index.js:80-81 | a missing pull request or a missing `labels` field gives the empty list, otherwise the pull request's labels |
| `Labels.ShouldSkip` | src/index.js:10-12 | true iff some label's `name` equals the skip label exactly |
| `Labels.NoLabelsNoSkip` | src/index.js:10-12 | the empty label list never skips |
| `Labels.MissingLabelsNoSkip` | src/index.js:80-83 | with no pull request or no label list the comment is never skipped |
| `Labels.ShouldSkipAppend` | src/index.js:11 | the filter of a concatenated list is the disjunction of the filters of its parts |
| `Labels.ExactComparison` | src/index.js:11 | a single label matches iff its name is identical to the skip label, letter case included |
| `Labels.EmptySkipLabel` | src/index.js:11 | an empty skip label never matches labels whose names are non-empty |
| `Payload.ComposeBody` | src/index.js:15-36 | the body is a version-1 `doc` with one `paragraph` holding one `text` node marked exactly `[strong]`, and its text is the message |
| `Payload.ComposeOfMessage` | src/index.js:15-36 | the message is the only varying part: any body of that structure is the composition of its own text |
| `Payload.ComposeInjective` | src/index.js:15-36 | different messages give different bodies |
| `Base64.SextetValue` | src/index.js:88 | alphabet characters, and only those, have a 6-bit value that maps back to the same character |
| `Base64.SextetRoundTrip` | src/index.js:88 | every 6-bit value maps to an alphabet character whose value is that value |
| `Base64.EncodeGroup` | src/index.js:88 | three bytes become four alphabet characters, whose values `Base64.GroupBits` fixes |
| `Base64.EncodeTail1` | src/index.js:88 | one final byte becomes two alphabet characters and `==`, the unused low four bits of the second character being zero; `Base64.Tail1Bits` fixes their values |
| `Base64.EncodeTail2` | src/index.js:88 | two final bytes become three alphabet characters and `=`, the unused low two bits of the third character being zero; `Base64.Tail2Bits` fixes their values |
| `Base64.GroupBits` | src/index.js:88 | the four characters of a group are the 24 bits of its three bytes cut into four 6-bit values, most significant first |
| `Base64.Tail1Bits` | src/index.js:88 | the two characters of a final byte are its 8 bits followed by four zero bits, cut into two 6-bit values |
| `Base64.Tail2Bits` | src/index.js:88 | the three characters of a final pair are its 16 bits followed by two zero bits, cut into three 6-bit values |
| `Base64.Encode` | src/index.js:88 | the encoding of n bytes has `4 * ceil(n/3)` characters from the alphabet, with `=` only as trailing padding |
| `Base64.DecodeEncode` | src/index.js:88 | decoding the encoding gives back the input bytes |
| `Base64.EncodeDecode` | src/index.js:88 | every text the strict decoder accepts is the encoding of the bytes it yields |
| `Utf8.EncodeScalar` | src/index.js:88 | one character becomes one to four bytes |
| `Utf8.Encode` | src/index.js:88 | a string of n characters encodes to between n and 4n bytes |
| `Utf8.EncodeScalarWellFormed` | src/index.js:88 | each character's bytes are well formed UTF-8: the shortest form for the character (no overlong form), the leading byte gives the length, the rest are continuation bytes, and together they carry the scalar value |
| `Utf8.AsciiEncoding` | src/index.js:88 | an ASCII string encodes to one byte per character, the character's code |
| `Utf8.EncodeAppend` | src/index.js:88 | the encoding of a concatenation (such as `email + ":" + token`) is the concatenation of the encodings |
| `Tracker.CommentTarget` | src/index.js:47 | the target begins with the base URL and has the length of URL, path, key and suffix together |
| `Tracker.TargetRoundTrip` | src/index.js:47 | the issue key can be read back from `url/rest/api/3/issue/<key>/comment` |
| `Tracker.TargetInjective` | src/index.js:47 | on one base URL, different keys give different targets |
| `Tracker.BasicAuthorization` | src/index.js:41 | the `Authorization` header `Basic <credential>`, from which the credential can be read back |
| `Tracker.CommentRequest` | src/index.js:38-47 | the request is a POST of `application/json` whose target names the key, whose header carries the credential and whose body carries the message |
| `Tracker.JoinedAppend` | src/index.js:49 | the concatenated text of the per-chunk decodings does not depend on how the list of decoded chunks is grouped |
| `Tracker.CollectBody` | src/index.js:48-49 | accumulating the chunks one by one yields their concatenation in arrival order |
| `Tracker.SuccessLog` | src/index.js:52 | the success log line contains the issue key |
| `Tracker.StatusFailure` | src/index.js:54 | the failure message for a non-2xx status contains the issue key, the decimal status code and the response text |
| `Tracker.TransportFailure` | src/index.js:59 | the failure message for a transport error contains the error's message |
| `Tracker.Classify` | src/index.js:50-59 | the exchange counts as delivered iff a response arrived with `200 <= status < 300`; the success log names the key; a status failure names the key, the code and the whole response text; a transport failure carries the error message |
| `Tracker.FailureNamesCodeAndBody` | src/index.js:53-55 | any other status is a failure whose message contains the issue key, the status code and the whole response text |
| `Tracker.TransportFailureNamesError` | src/index.js:59 | a transport error is a failure whose message contains the error's message |
| `Action.BranchName` | src/index.js:73 | without a `refs/heads/` the branch name is the ref, with one it is eleven characters shorter |
| `Action.Credential` | src/index.js:88 | the credential decodes to the UTF-8 bytes of `email:token`, and its length is `4 * ceil(n/3)` for n bytes |
| `Action.ChosenMessage` | src/index.js:90-94 | the success text exactly when the status input is `success`, the failed text in every other case |
| `Action.Decide` | src/index.js:73-94 | stop with the branch name iff it holds no key; stop with the skip label only when a label matches it; a post is a `POST` on the key found, whose header carries a credential decoding to `email:token` |
| `Action.Run` | src/index.js:50-86 | a warning exactly when there is no key, naming the branch; the skip notice for the label; a post answered with 2xx reports an informational line naming the key; a failure only after a post, naming the key, the status code and the response text, or the transport error |
| `Action.BranchNameOfRef` | src/index.js:73 | the branch name is the ref with its first `refs/heads/` removed, or the ref itself without one |
| `Action.NoKeyNoPost` | src/index.js:74-78 | the invocation stops without posting exactly when the branch name holds no key |
| `Action.SkipLabelNoPost` | src/index.js:80-86 | it stops on the label exactly when there is a key and some label is named exactly as the skip label |
| `Action.NoPullRequestPosts` | src/index.js:80-83 | with a key and no pull request or no label list, a comment is always posted |
| `Action.PostedComment` | src/index.js:88-94 | otherwise one comment is posted on the key, to the comment endpoint, with `Basic` and the credential, carrying the success text iff `status` is exactly `success` |
| `Action.CredentialExample` | src/index.js:88 | `a@b.com` with `t0k` gives `YUBiLmNvbTp0MGs=` |
| `Action.LowerCaseRefNoKey` | src/index.js:73-78 | a ref without capital letters leads to no post |
| `Action.StepFailsOnlyOnDelivery` | src/index.js:51-54 | the step fails exactly when a comment is posted and no 2xx response arrives |
| `Action.NoPostIgnoresResponse` | src/index.js:75-86 | when no comment is posted the result does not depend on the transport and the step succeeds |

## Left out

- The HTTP exchange (`https.request`, its `data`/`end`/`error` events, src/index.js:47-61): the request is returned as a value and the response, as a sequence of body chunks or a transport error, is a parameter of `Run`. The model assumes that exactly one of `end` or `error` settles the exchange.
- JSON serialisation of the body (src/index.js:15) and the `Content-Length` header (src/index.js:43): the body is a datatype; an honest JSON serialiser is out of proportion. The code sets `Content-Length` to `data.length`, which counts UTF-16 code units and not bytes, so it differs from the byte length for non-ASCII messages; this is not modelled.
- The toolkit and environment (`core.getInput`, `core.warning`, `core.setFailed`, `console.log`, `github.context`): their values are parameters and the signals a returned `Report`. Any processing `core.getInput` applies to an input (such as trimming) is not modelled.
- The `try`/`catch` path (src/index.js:65, 95-97). `github.context.ref` comes from `GITHUB_REF`, which is absent for events without a branch or tag. Then `.replace` at src/index.js:73 throws a `TypeError`. A `labels` field that is present but not an array makes `.some` throw in the same way. `Context.ref` is a `string` and the labels an `Option<seq<Label>>`, so the model's types exclude these two cases. A third case is within the model's types but not captured: `https.request` (src/index.js:47) throws synchronously on a `url` input it cannot use, such as an empty one (an unset input), a relative one or an `http:` one. Because `postJiraComment` is called inside the `try` (src/index.js:91, 93), no request is sent and the step fails with the exception's message. The model's `Decide` returns `Post` for every `url`, and `Run` then reports what the `response` parameter says. The `catch` turns each of these exceptions into `core.setFailed`, so the step fails.
- Tracker.JoinedAppend: each element of `Response.chunks` stands for the UTF-8 decoding of that chunk alone. No `setEncoding` is called (src/index.js:49), so `responseData += chunk` decodes each `Buffer` separately. When a multi-byte character straddles a chunk boundary, each half decodes to U+FFFD. The text can then differ from the decoding of the whole body, and the model does not capture that difference.
- Strings are sequences of Unicode scalar values. JavaScript strings are UTF-16 and may hold lone surrogates, which `Buffer.from` turns into U+FFFD; such strings are not representable here. The regex only involves ASCII characters, so the matching model is unaffected for all other strings.
- Labels carry only a `name` string; label objects without a `name`, or with a non-string one, are not modelled.
- `Strings.DecimalString` renders integers only; a Node.js status code is always an integer.
