# Drive-link request form — a Dafny model

This project models the client-side form controller of the "Create New
Request" screen: the user types a list of Google Drive / Google Docs links,
each field shows its own error, and a submit either sends the whole batch of
`{url: "entry-<n>", value: <last path segment>}` records and resets the form,
or sends nothing and shows a whole-form error.

The controller state is a `State` record with three parts: `inputs` (the
field texts), `errors` (one error text per field) and `formError`. Each of
the four handlers is a pure function from a `State` to the next `State`.
Submit also returns `Option<seq<ValidUrl>>`, the batch that would be sent.

Modules:

- `Wrappers` — `Option`.
- `JsArray` — the JavaScript array operations the handlers use:
  - element assignment `a[i] = v`, which appends when `i == a.length`;
  - `filter((_, i) => i !== index)`.
- `Text` — `url.split('/').pop()`, and the decimal rendering of `index + 1`
  in the `entry-<n>` label. Each comes with its inverse or an exact
  characterisation:
  - `Join` inverts `Split`;
  - `IsLastSegment` says what the last segment is, and only one string meets it;
  - `DecimalValue` reads a rendered number back.
- `UrlPattern` — the one fixed pattern
  `^(https?://)?(drive\.google\.com|docs\.google\.com)/.*$` as a string
  predicate. `ValidateUrl` is the one-pass reading: drop `https://` or
  `http://`, then require a host followed by `/` and a tail without line
  terminators. It is proved equal to `MatchesPattern`, which is the pattern's
  six scheme/host alternatives written out. JavaScript's `.` does not match
  `\n`, `\r`, U+2028 or U+2029, and `$` (no `m` flag) matches only at the
  end, so a line break anywhere in the tail makes the link invalid.
- `RequestForm` — `State`, `ValidUrl`, the four handlers, the submit scan,
  and a reachability invariant over any sequence of user actions.

Policy choices:

- The send is modelled optimistically, as the code does. The form resets as
  soon as the batch is handed over; a transport failure is not represented.
- `.*` is sometimes read loosely as "any remaining characters". Without the
  `s` flag, JavaScript's `.` refuses line terminators, so the model refuses
  them in the tail too.

## Model

| member | source | states |
|---|---|---|
| RequestForm.Initial | src/components/CreateRequestMainComponent.tsx:15-17 | The first state has one empty field with an empty error and no form error, and it satisfies the invariant. |
| RequestForm.AddUrl | src/components/CreateRequestMainComponent.tsx:18-23 | Below 10 fields, one empty field and one empty error slot are appended and nothing else changes. At 10 or more the state is unchanged. The lists stay parallel and never grow past 10. |
| RequestForm.UpdateInput | src/components/CreateRequestMainComponent.tsx:25-34 | The field at `index` takes the new text and its error becomes empty. Every other field, every other error and the form error are unchanged, and both lengths are kept. |
| RequestForm.DeleteInput | src/components/CreateRequestMainComponent.tsx:37-42 | For an in-range `index`, both lists lose exactly that position and the others keep their order. The list may become empty. An out-of-range position changes nothing. The form error is kept and the lists stay parallel. |
| JsArray.FilterOutIndex | src/components/CreateRequestMainComponent.tsx:38-39 | Filtering out one position equals the slice `a[..index] + a[index+1..]` when the position exists, and the whole array otherwise. |
| JsArray.Assign | src/components/CreateRequestMainComponent.tsx:26-27 | An element write sets position `i` and leaves every other position as it was. Writing at the current length appends. |
| UrlPattern.ValidateUrlMatchesPattern | src/components/CreateRequestMainComponent.tsx:45-48 | The one-pass check accepts a string if and only if some scheme/host alternative of the pattern, then `/`, then a line-break-free tail, matches it. |
| UrlPattern.AlternativeAccepted | src/components/CreateRequestMainComponent.tsx:46 | For each of the three schemes and two hosts, scheme + host + `/` + tail is accepted exactly when the tail holds no line terminator. |
| UrlPattern.RejectsBareHost | src/components/CreateRequestMainComponent.tsx:46 | A scheme plus host with no `/` after it, such as `https://drive.google.com`, is refused. |
| UrlPattern.AcceptedStartsLowerCase | src/components/CreateRequestMainComponent.tsx:46 | Every accepted link starts with a lower-case `h` (the scheme) or `d` (the host), so `HTTPS://…` and `Drive.…` are refused. |
| UrlPattern.RejectsCapitalisedHost | src/components/CreateRequestMainComponent.tsx:46 | The match is case-sensitive inside the host too: `drive.Google.com/x` is refused. |
| UrlPattern.RejectsBareDriveLink | src/components/CreateRequestMainComponent.tsx:46-47 | `https://drive.google.com`, with no `/` after the host, is invalid. |
| UrlPattern.AcceptsSchemelessLink | src/components/CreateRequestMainComponent.tsx:46-47 | `drive.google.com/x`, with no scheme, is valid. |
| Text.Split | src/components/CreateRequestMainComponent.tsx:59 | `split('/')` yields at least one piece, and no piece contains the separator. |
| Text.JoinSplit | src/components/CreateRequestMainComponent.tsx:59 | Joining the pieces of `split` with the separator gives back the original string. |
| Text.LastSegmentIsLast | src/components/CreateRequestMainComponent.tsx:59 | `split('/').pop()` is a suffix of the link with no `/` in it. It is either the whole link or preceded by a `/`, and it is empty when the link ends in `/`. |
| Text.LastSegmentUnique | src/components/CreateRequestMainComponent.tsx:59 | Any string that is the text after the last `/` equals `split('/').pop()`, so that characterisation is exact. |
| Text.Decimal | src/components/CreateRequestMainComponent.tsx:59 | The rendering of `index + 1` is non-empty, uses digits only and has no leading zero. |
| Text.DecimalRoundTrip | src/components/CreateRequestMainComponent.tsx:59 | Reading the rendered digits back gives the number. |
| Text.DecimalInjective | src/components/CreateRequestMainComponent.tsx:59 | Different numbers render differently. |
| RequestForm.EntryLabelInjective | src/components/CreateRequestMainComponent.tsx:59 | Different positions get different `entry-<n>` labels. |
| RequestForm.CollectValid | src/components/CreateRequestMainComponent.tsx:53-64 | After the scan of a prefix, `validUrls` is no longer than the prefix. It is exactly as long if and only if every input in the prefix is valid, and then it holds each position's record in order. |
| RequestForm.ScanErrors | src/components/CreateRequestMainComponent.tsx:54-66 | After the scan, each scanned position holds `""` when its input is valid and `"Invalid Google Drive URL"` otherwise. Positions past the inputs keep their old text. |
| RequestForm.SaveUrls | src/components/CreateRequestMainComponent.tsx:51-83 | A batch is sent if and only if there is at least one input and all inputs are valid. The batch's k-th record is `{url: "entry-(k+1)", value: last segment of input k}`, and the form resets to `[""]`, `[""]`, `""`. Otherwise nothing is sent, the inputs stay, the form error becomes the ensure-all-valid message and each field's error says whether it failed. The lists stay parallel. |
| RequestForm.ValidUrlHasSlash | src/components/CreateRequestMainComponent.tsx:46 | Every accepted link contains a `/`. |
| RequestForm.EmittedLabelsDistinct | src/components/CreateRequestMainComponent.tsx:57-59 | The `entry-<n>` labels of a sent batch are pairwise distinct. |
| RequestForm.AcceptedLinkValue | src/components/CreateRequestMainComponent.tsx:58-59 | The value recorded for an accepted link is the text after its last `/`, and a proper suffix of the link. |
| RequestForm.SubmitSingleValidLink | src/components/CreateRequestMainComponent.tsx:57-76 | A form holding one valid link sends exactly `[{url: "entry-1", value: its last segment}]` and resets to one empty field. |
| RequestForm.SubmitSingleInvalidLink | src/components/CreateRequestMainComponent.tsx:57-66 | A form holding one invalid link sends nothing. It keeps the input, shows `"Invalid Google Drive URL"` on the field and sets the form error. |
| RequestForm.SubmitValidThenInvalid | src/components/CreateRequestMainComponent.tsx:69-81 | A valid link followed by an invalid one: nothing is sent. Only the second field gets an error, and the form error is set. |
| RequestForm.SubmitEmptyForm | src/components/CreateRequestMainComponent.tsx:69-81 | With no fields, nothing is sent and the form error is set. |
| RequestForm.StepKeepsInvariant | src/components/CreateRequestMainComponent.tsx:18-83 | Each handler keeps the lists parallel and at most 10 long. |
| RequestForm.RunKeepsInvariant | src/components/CreateRequestMainComponent.tsx:18-83 | Any sequence of handlers keeps that invariant. |
| RequestForm.ReachableInvariant | src/components/CreateRequestMainComponent.tsx:15-83 | Every state reachable from the first render has parallel lists of at most 10 fields. |

## Left out

- Rendering: the JSX, styling, icons and the header trash button (src/components/CreateRequestMainComponent.tsx:85-171). They only display state.
- The `alert`, the commented-out `axios.post` and `console.error` are I/O. The emitted batch is returned as an `Option` instead. The `catch` branch is not modelled: the model's handover cannot fail.
- React's batched `setState` and the `async` handler: each handler is one atomic transition.
- RequestForm.UpdateInput: requires a position inside both lists. In JavaScript, a write at the end of an array appends and a write past it would leave holes, and the view only passes positions of fields it shows. The reachable states always have lists of equal length, so this excludes nothing reachable.
- Text.Decimal: renders every natural number as plain digits. JavaScript switches to exponent notation from 10^21, which a form with at most ten fields never reaches.
- Characters are Unicode scalar values, while JavaScript strings are UTF-16 code units. The pattern, `split` and the labels only inspect ASCII characters and the four line terminators, so the two readings agree.
- The persistence endpoint (src/api/urls.ts) is not part of this model. It is a request handler over a database client: a process-wide lazy connection, network and database I/O, and asynchronous error handling.
- The stored document schema (src/models/Urls.ts) is not part of this model. It declares two string fields and has no logic.
- General regular-expression matching: only this one fixed pattern is encoded, as a direct predicate.
