# Image colorizer: state controller and data-URL handling

This project models the logic of the App component of a single-page image
colorizer. The user uploads a black-and-white photo as a data URL. A click on
"Colorize & Enhance" sends the photo's base64 payload and MIME type to a remote
image model. The answer is shown as a JPEG data URL, or a fixed error message is
shown if the call fails.

Two modules hold the model:

- `DataUrl` (`data_url.dfy`) holds the pure string functions of `processImage`.
  - The payload is `originalImage.split(',')[1]`. `Split` models
    `String.prototype.split(',')` in full. `Payload` takes the second field, or
    none when there is no comma.
  - The MIME type is the first capture of the unanchored regular expression
    `data:(.*);base64,`, or `image/jpeg` when it does not match or the capture is
    empty. The regular expression is stated as ghost predicates: `MatchAt` is a
    match, and `IsCapture` is the leftmost match with the longest `.*` that does
    not cross a JavaScript line terminator. Scanning functions are proved to
    compute that capture.
  - The remote result is wrapped as `data:image/jpeg;base64,<result>`.
  - The round-trip lemmas parse encoded and wrapped URLs back.
- `Controller` (`controller.dfy`) holds the four state fields of the component
  (`originalImage`, `generatedImage`, `isLoading`, `error`) as the class
  `App`.
  - Its methods are the upload handler and `processImage`. `processImage` is
    split into its synchronous start and two atomic settle steps, one for a
    resolved call and one for a rejected call.
  - `Click` is a click on the process trigger. A disabled button does not run
    its handler, so `Click` only reaches `StartProcess` while the trigger is
    enabled.
  - A ghost counter `inFlight` counts the remote calls that were started and
    have not settled. `Valid()` is the invariant of every state reachable through
    `Click`: at most one call in flight, loading exactly while one is in flight,
    and never both a result and an error.
  - Small client methods run the component through whole scenarios.

`processImage` itself does not check `isLoading`. Only the disabled trigger
prevents a second start while a call is in flight (App.tsx:85). `StartProcess`
has no guard of its own, and `DoubleSubmission` shows what two starts lead to:
a result and an error shown together. The uploader stays active while a call
is in flight.
`UploadDuringProcessing` shows that the late answer for the first image is then
shown beside the second image. The uploader also hands over null when a file
read fails, which clears the original image (`FailedReadDuringProcessing`).

## Model

| member | source | states |
|---|---|---|
| DataUrl.Encode | App.tsx:29-33 | the data URL `data:<m>;base64,<p>` starts with `data:`, holds the MIME type right after it, then exactly `;base64,`, then ends with the payload, and has exactly the length of its parts |
| DataUrl.Wrap | App.tsx:33 | the generated image starts with `data:image/jpeg;base64,` and ends with the remote result, with nothing else in between |
| DataUrl.Split | App.tsx:28 | `split(',')`: at least one field, no field holds a comma, and joining the fields with commas gives the input back |
| DataUrl.SplitJoin | App.tsx:28 | splitting comma-joined, comma-free fields gives exactly those fields back, so the fields of a split are unique |
| DataUrl.Payload | App.tsx:28 | `split(',')[1]` is undefined exactly when the URL has no comma, and it holds no comma otherwise |
| DataUrl.PayloadIsSecondField | App.tsx:28 | the payload is the text between the first comma and the next comma or the end |
| DataUrl.CaptureSpan | App.tsx:29 | the regular expression finds nothing exactly when no match exists anywhere; otherwise it returns the leftmost match with the greedy (longest) group |
| DataUrl.CaptureUnique | App.tsx:29 | the leftmost-greedy match is unique |
| DataUrl.MimeCapture | App.tsx:29 | `match(...)?.[1]` is undefined exactly when the expression matches nowhere |
| DataUrl.MimeType | App.tsx:29 | the MIME type is never empty: it is the captured group, or `image/jpeg` |
| DataUrl.MimeCaptureValue | App.tsx:29 | for every URL, the value of `match(...)?.[1]` is group 1 of the leftmost-greedy match |
| DataUrl.MimeTypeValue | App.tsx:29 | for every URL that matches, the MIME type is group 1 of the leftmost-greedy match when that group is non-empty, and `image/jpeg` when it is empty |
| DataUrl.MimeTypeWithoutMatch | App.tsx:29 | for every URL on which the expression matches nowhere, the MIME type is `image/jpeg` |
| DataUrl.CaptureOfEncoded | App.tsx:29 | in `data:<m>;base64,<p>`, where m has no line break and p no comma, the captured group is exactly m, even when m is empty |
| DataUrl.ParseEncoded | App.tsx:28-29 | round trip: for a non-empty m without comma or line break and p without comma, `data:<m>;base64,<p>` yields payload p and MIME type m |
| DataUrl.ParseWrapped | App.tsx:28-33 | round trip: the generated `data:image/jpeg;base64,<r>`, for r without comma, yields payload r and MIME type `image/jpeg` |
| DataUrl.EmptyMimeTypeFallsBack | App.tsx:29 | an empty captured MIME type falls back to `image/jpeg`, because the logical or of JavaScript treats `""` as false |
| DataUrl.NoCommaNoPayload | App.tsx:28-29 | a URL without a comma has an undefined payload and the MIME type `image/jpeg` |
| DataUrl.GreedyCapture | App.tsx:29 | the greedy `.*` runs to the last `;base64,` on the line, so a marker inside the payload becomes part of the MIME type |
| Controller.RequestFor | App.tsx:28-31 | the request sent to the remote model always carries a non-empty MIME type; its payload is undefined exactly when the original has no comma |
| Controller.RequestOfEncoded | App.tsx:28-31 | the request built from `data:<m>;base64,<p>` (m non-empty without comma or line break, p without comma) carries payload p and MIME type m |
| Controller.App.constructor | App.tsx:9-12 | initial state: no original, no result, no error, not loading |
| Controller.App.Upload | App.tsx:14-18 | sets the original to the value handed over (a data URL, or null after a failed read), clears the result and the error, leaves loading and the in-flight count unchanged, keeps `Valid()` |
| Controller.App.StartProcess | App.tsx:20-31 | no change and no request without a truthy original (null or `""`); otherwise loading on, error and result cleared, original kept, and the request built from the original; keeps `Valid()` when started while not loading |
| Controller.App.Click | App.tsx:83-85 | the trigger starts processing exactly when it is enabled (truthy original, not loading) and does nothing otherwise; keeps `Valid()` in every case |
| Controller.App.SettleSuccess | App.tsx:31-38 | the result becomes `data:image/jpeg;base64,<result>`, loading ends, original and error unchanged; from a valid state the error is none |
| Controller.App.SettleFailure | App.tsx:34-38 | the error becomes the fixed failure message, loading ends, original and result unchanged; from a valid state the result is none |
| Controller.App.ProcessEnabled | App.tsx:85 | the trigger is enabled exactly when a non-empty original is present and nothing is loading |
| Controller.App.ProcessButtonLabel | App.tsx:88 | the label reads "Processing..." exactly while loading and "Colorize & Enhance" otherwise |
| Controller.App.DownloadOffered | App.tsx:91 | the download link is offered exactly when a non-empty generated image is present and nothing is loading |
| Controller.App.ShowsPlaceholder | App.tsx:65-69 | in every state, the placeholder shows exactly when neither the spinner nor the generated image shows |
| Controller.ViewIsConsistent | App.tsx:59-99 | in a valid state the result pane shows exactly one of spinner, placeholder and image; the download link is offered exactly when the image is shown; a result and an error banner never show together; the label reads "Processing..." exactly while the spinner shows |
| Controller.ProcessEnabledWhenIdle | App.tsx:85-91 | in a valid state the trigger is enabled exactly when the original is truthy and no call is in flight; the download link implies no call in flight and no error |
| Controller.ProcessSucceeds | App.tsx:14-38 | upload, click, success: result is the JPEG data URL of the answer, not loading, no error, download offered, and the result parses back to the answer and `image/jpeg` |
| Controller.ProcessFails | App.tsx:14-38 | upload, click, failure: the fixed message, no result, not loading, and the trigger is enabled again |
| Controller.ProcessWithoutImage | App.tsx:20-21 | with no original or the empty string, processing sends no request and starts no loading |
| Controller.UploadDuringProcessing | App.tsx:14-40 | an upload during a call keeps loading on; the answer built from the first image is then shown next to the second |
| Controller.FailedReadDuringProcessing | App.tsx:14-18 | a null upload during a call clears the original and leaves loading on; after the answer the trigger stays disabled |
| Controller.DoubleSubmission | App.tsx:20-40 | two starts past the trigger: loading ends at the first settle while a call is still open, and a success then a failure leave both a result and an error |

## Left out

- The uploader component (`components/ImageUploader.tsx`) is not modelled. It reads the file with the browser's `FileReader` and, in `onloadend`, passes `reader.result` to the upload handler: the data URL, or null when the read failed or was aborted. `Upload` takes that value as an optional string.
- The remote client (`services/geminiService.ts`) is not modelled. It is an SDK call over the network with an API key from the environment. Every error raised inside its try block is rethrown as one generic error. An error from constructing the client, before that block, rejects with its own error. The component catches any rejection and collapses it to one message. The outcome of the call is the choice between `SettleSuccess(result)` and `SettleFailure()`.
- `components/ImageDisplay.tsx`, the `Spinner` component, the JSX markup, the CSS classes and the download file name are not modelled. They only lay out what the view predicates of `App` decide.
- `console.error` logging is left out. It has no effect on state.
- Asynchronous scheduling and React's batching of state updates are not modelled. Each start and each settle is one atomic step. The ghost `inFlight` counter stands for the promises that have not settled yet. The callback rebuilt for each `originalImage` is modelled by reading the current original at the start.
- JavaScript strings are sequences of UTF-16 code units, while Dafny's `char` is a Unicode scalar value. Lone surrogates therefore cannot be written in the model. Nothing in the modelled logic depends on code units.
