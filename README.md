# VOGUE Cowboy Fusion: transform client and view state, in Dafny

The application is a single page. The user uploads a portrait, the page sends
it to a generative image service with a fixed styling instruction, and it
shows the edited image next to the original. Two pieces of it carry logic,
and this project models both and proves properties of them:

- **The transform client** (`services/geminiService.ts`, module
  `GeminiService` in `gemini_service.dfy`). It guards the API key. It takes
  the payload and MIME type out of the uploaded data URL, using the code's
  own comma split and regular expression rather than the data-URL grammar of
  section 3 of RFC 2397. It scans the service's reply for the first part with
  inline image data and rebuilds a data URL from that part. Every failure is
  rethrown with its own message, or with a generic message when it has none.
  The remote call is a parameter `service: Request -> RemoteOutcome`. A
  reply is an optional list of tagged parts: a part with inline data (an
  optional MIME type and payload), or any other part, whose `inlineData` is
  absent (text, a function call, a thought, an empty part). A failure is a
  thrown error whose message may be missing.
- **The view-state controller** (`App.tsx` and `types.ts`, modules `App` and
  `Types` in `app.dfy` and `types.dfy`). The record `TransformationState` and
  the phase `ViewMode` are the two fields of the class `AppComponent`. There
  is one method per handler. The asynchronous transform is split into
  `BeginTransform`, which runs before the await, and `CompleteTransform`,
  which receives the settled outcome. `HandleTransform` runs both with the
  transform client in between. The page only offers some controls in each
  phase. The methods take that gating as preconditions:
  - the file input exists only in Upload;
  - the transform button exists only in Preview and is disabled while
    processing;
  - Cancel is disabled while processing;
  - "Create New Look" exists only in Result.

  The same handlers are also written as pure functions on a `Snapshot`, one
  `Step` per `Action`. Each method's postcondition ties the object to them.
  On that pure model the phase/record invariant `Consistent` is proved for
  every trace the page allows.

`wrappers.dfy` holds `Option`, which stands for TypeScript's `null` and
`undefined`, and `Result`, which stands for resolving or throwing.

## Model

| member | source | states |
|---|---|---|
| `GeminiService.Split` | services/geminiService.ts:20 | `split(',')` always yields at least one piece, and no piece contains the separator |
| `GeminiService.JoinSplit` | services/geminiService.ts:20 | joining the pieces of a split with the separator gives back the original string |
| `GeminiService.SplitJoin` | services/geminiService.ts:20 | splitting a join of separator-free pieces gives back exactly those pieces, so the split is determined by the comma positions |
| `GeminiService.PayloadWithoutComma` | services/geminiService.ts:20 | with no comma, `split(',')[1]` is undefined and the payload is the whole input |
| `GeminiService.PayloadIsSecondPiece` | services/geminiService.ts:20 | with a comma, the payload is the text between the first comma and the next comma (or the end) when that text is non-empty; when it is empty, the whole input is the payload |
| `GeminiService.RunWithout` | services/geminiService.ts:21 | the greedy `[^;]+` run is a prefix without ';', stopped only by ';' or the end |
| `GeminiService.RunWithoutUnique` | services/geminiService.ts:21 | a ';'-free prefix followed by ';' is the greedy run, so backtracking yields no other capture |
| `GeminiService.MatchAtIsRegexMatch` | services/geminiService.ts:21 | at each position, the matcher returns capture `g` exactly when `/data:([^;]+);/` matches there with capture `g` (both directions) |
| `GeminiService.LeftmostMatch` | services/geminiService.ts:21 | the search returns the leftmost position where the expression matches, or nothing when it matches nowhere |
| `GeminiService.MimeTypeWithoutMatch` | services/geminiService.ts:21 | with no match anywhere, the MIME type is `image/jpeg` |
| `GeminiService.MimeTypeIsLeftmostCapture` | services/geminiService.ts:21 | the MIME type is the capture of the leftmost match |
| `GeminiService.RequestRoundTrip` | services/geminiService.ts:20-21 | for `m` non-empty without ';' or ',' and `d` non-empty without ',', the data URL `data:m;base64,d` (built as on line 46) yields MIME type `m` and payload `d` |
| `GeminiService.FirstInlineImage` | services/geminiService.ts:43-50 | the index found holds inline data and every earlier part has none; nothing is found exactly when no part has inline data |
| `GeminiService.FirstImageWins` | services/geminiService.ts:44-48 | parts without inline data before the first image, and every part after it, do not affect the result, which is that image's data URL |
| `GeminiService.ScanForImage` | services/geminiService.ts:41-50 | the loop with `break` returns the data URL of the first inline-image part, and nothing exactly when no part has inline data; a result always starts with `data:` |
| `GeminiService.RethrownMessage` | services/geminiService.ts:57-59 | the rethrown message is never empty; a non-empty message passes through unchanged, and a missing or empty one becomes the generic message |
| `GeminiService.TransformImageToCowboy` | services/geminiService.ts:11-60 | a missing or empty key fails with the configuration message whatever the service does; otherwise the call result is the first inline image's URL, or a failure with the thrown message or its fallback, or with the "no image" message when there are no parts or none has inline data; a success starts with `data:` and a failure message is never empty |
| `App.StepKeepsConsistent` | App.tsx:18-52 | every action the page offers keeps the phase/record invariant, provided the file read yields a string |
| `App.ReachableConsistent` | App.tsx:18-52 | the invariant holds after any trace of offered actions from a consistent snapshot |
| `App.InitialReachesOnlyConsistent` | App.tsx:9-16 | every snapshot reachable from start-up satisfies the invariant: Upload has no images; Preview has the original only; Result has both; processing only in Preview; error clear while processing, in Upload and in Result |
| `App.EmptyOriginalStartsNothing` | App.tsx:31 | after an upload whose read yields the empty string, the transform control is offered but starting a transform changes nothing, since `!state.originalImage` holds for the empty string |
| `App.FailedReadBreaksInvariant` | App.tsx:22-24 | a failed file read is still stored (as null) and moves the page to Preview without an original image, so the invariant needs successful reads |
| `App.ResetIdempotent` | App.tsx:44-52 | reset yields the initial snapshot from any snapshot, and resetting twice equals resetting once |
| `App.AppComponent.constructor` | App.tsx:9-16 | both images null, not processing, no error, Upload phase; the invariant holds |
| `App.AppComponent.HandleFileUpload` | App.tsx:18-28 | with no file, nothing changes; with a file, the original image becomes the read result, the error is cleared, the edited image and the flag are kept, and the phase becomes Preview; a successful read keeps the invariant |
| `App.AppComponent.BeginTransform` | App.tsx:30-33 | when the original image is null or the empty string (both falsy), nothing changes; otherwise only the flag is set and the error cleared; the invariant is kept |
| `App.AppComponent.CompleteTransform` | App.tsx:35-41 | success stores the edited image, clears the flag and moves to Result while keeping the original; failure clears the flag and stores the message, keeping the edited image and the phase; the invariant is kept |
| `App.AppComponent.HandleTransform` | App.tsx:30-42 | with a null or empty original image nothing changes and the client is not called; otherwise the whole handler is the begin step followed by the completion with the client's outcome for that image; reaching Result leaves a `data:` URL as the edited image; staying in Preview leaves a non-empty error message |
| `App.AppComponent.ResetView` | App.tsx:44-52 | the record returns to its initial values and the phase to Upload, from any state where a reset control is offered |

## Left out

- The service SDK call, its model name and its wire format (services/geminiService.ts:17, 24-39): the call's outcome is a parameter. The reply is reduced to "an optional list of parts of the first candidate". `Replied(None)` stands only for a reply whose `candidates` is absent, or whose first candidate has `content` but no `parts`. Two replies make line 43 itself throw a TypeError, which line 59 rethrows with the TypeError's own message: an empty `candidates` list, and a first candidate without `content` (as on a blocked reply). Such a reply must be given as `Threw(Some(m))`, with `m` the TypeError's message; the model does not derive that message.
- The fixed instruction text (services/geminiService.ts:4-9) and the download file name (App.tsx:153): opaque constants with no logic. `Request` carries only the payload and the MIME type.
- The `process.env.API_KEY` lookup: the key is an `Option<string>` parameter.
- `console.error` logging (services/geminiService.ts:58).
- `FileReader` and `readAsDataURL` (App.tsx:21-26): the chosen file and its read result are one `Option<Option<string>>` parameter. The reader's asynchrony is not modelled.
- Asynchronous scheduling and React's `useState` closures. `HandleTransform` passes the current original image where the handler passes the one captured when it was rendered. No stale or late response is interleaved with other actions; the gating leaves no action that could run while a request is in flight.
- All markup of `renderContent` and the page shell (App.tsx:54-190), and `components/Button.tsx` and `components/Header.tsx`: presentation. Only the action-availability guards at App.tsx:70, 99, 102 and 158 are kept, as preconditions and as `App.Enabled`.
- Base64 validity of payloads: the code never checks it.
- An error thrown by the constructor of the SDK client (services/geminiService.ts:17) is not modelled.
- `App.ReachableConsistent`: proved only for traces in which every file read yields a string. On a failed read the code stores `null` as the original image and still moves to Preview (`App.FailedReadBreaksInvariant`), and the invariant does not hold there.
