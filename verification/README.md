# Caption generator: a Dafny model of the `App` component

The caption generator is a single React component, `App`. It posts a keyword
and two numbers to a webhook. It cuts the reply into captions at blank
lines and shows each caption on a card with a copy button. This project
models the three parts of `App` that are logic rather than layout:

- **Caption extraction** (`Captions`, `BlankLineSplit`, `JsText`). The reply
  text is the JSON `text` field when the `content-type` header includes
  `application/json`; otherwise it is the whole body. The text is cut with
  `split(/\n\n+/)`, and fragments whose `trim()` is empty are dropped. The
  split is modelled in three ways. `Fragments` is a recursive reference
  definition. `Split` is the ECMAScript `@@split` loop, and its contract
  says it returns `Fragments`. `Weave` with `WellFormedSplit` is an
  independent characterisation. `SplitRebuildsInput` and `SplitIsUnique`
  prove that it picks out exactly `Fragments`.
- **UI state** (`AppState`). The record holds `isLoading`, `error`,
  `captions` and `copiedIndex`. It has one pure function per `setState`
  group in `handleSubmit` and `handleCopy`. On top of that sit a derived
  status (Idle / Loading / Error / Showing) and a consistency invariant
  that every event keeps.
- **Labels** (`Labels`). These are the submit-button label, the card
  headings (`✨ Caption ` alone, or followed by `#k`), and the rendered view
  reduced to its text.

The network, the clipboard and the timer are abstract inputs:

- A reply is a `Response`: `Thrown`, or `Received(ok, contentType,
  jsonText, bodyText)`. `jsonText` is the `text` field that
  `response.json()` would give, and `bodyText` is what `response.text()`
  would give. Only the one the content type selects is used.
- A copy is `Copy(index, written)`, where `written` says whether the
  clipboard write succeeded.
- The two-second timer firing is the event `CopyTimerFired`.

Two details of the code decide what a caption is, and the model follows
them:

- Kept fragments are **not** trimmed. The code only uses `trim()` to decide
  whether to keep a fragment.
- Only runs of two or more U+000A characters separate captions. A line
  that holds spaces does not (`SpacedLineExample`), and neither does a
  `\r\n\r\n` pair (`CrLfExample`).

## Model

| member | source | states |
|---|---|---|
| JsText.Trim | src/App.tsx:48 | `text.trim()` is empty exactly when every character of `text` is JavaScript white space or a line terminator, so the filter keeps exactly the fragments that are not blank |
| JsText.TrimKeepsMiddle | src/App.tsx:53 | `trim()` keeps a contiguous middle of the text, unchanged, removing only white space at the two ends; what it keeps starts and ends with a character that is not white space |
| JsText.Includes | src/App.tsx:44 | `contentType.includes('application/json')` holds exactly when the needle occurs at some position of the header value |
| BlankLineSplit.FirstSeparatorFrom | src/App.tsx:48 | the separator the regex matches first is the leftmost position holding two consecutive line feeds, with none before it |
| BlankLineSplit.Fragments | src/App.tsx:48 | `split(/\n\n+/)` always returns at least one piece, even for the empty text |
| BlankLineSplit.FragmentsWhole | src/App.tsx:53 | the text comes back whole, as a single piece, exactly when it holds no two consecutive line feeds |
| BlankLineSplit.MatchAt | src/App.tsx:53 | a sticky match of `\n\n+` succeeds exactly where two line feeds start, and consumes the whole run of line feeds (greedy) |
| BlankLineSplit.Split | src/App.tsx:53 | the ECMAScript split loop (try a match at every position, emit the text before a match, resume after it, emit the tail) returns exactly the reference `Fragments` |
| BlankLineSplit.SplitRebuildsInput | src/App.tsx:48 | fragments and consumed separators, interleaved, rebuild the input exactly; every separator is a maximal run of two or more line feeds; no fragment holds two consecutive line feeds |
| BlankLineSplit.SplitIsUnique | src/App.tsx:53 | any cut of the text into fragments and maximal line-feed runs with these properties is the split `Fragments`/`Separators` produce (leftmost, greedy) |
| Captions.KeepVisible | src/App.tsx:48 | the filter keeps no blank fragment and never lengthens the list |
| Captions.KeepVisibleMembers | src/App.tsx:53 | the filter keeps a fragment exactly when it is not blank |
| Captions.KeepVisibleAppend | src/App.tsx:53 | filtering commutes with concatenation, so kept fragments stay in their input order |
| Captions.CaptionsOf | src/App.tsx:48 | split-then-filter keeps exactly the pieces of the split that are not blank, and never more captions than pieces |
| Captions.CaptionsAreWellShaped | src/App.tsx:48-53 | every extracted caption has a character that is not white space and contains no two consecutive line feeds |
| Captions.CaptionsAreVisibleFragments | src/App.tsx:48-53 | the captions are the split's non-blank fragments, verbatim and untrimmed, and the fragments with the separators rebuild the text |
| Captions.CaptionsEmptyIffBlank | src/App.tsx:51-58 | no caption comes out exactly when the text is empty or white space only |
| Captions.TwoCaptionExample | src/App.tsx:51-53 | `"Great morning coffee.\n\nStart your day right."` gives exactly those two captions |
| Captions.SpacedLineExample | src/App.tsx:53 | a line holding a space does not separate captions, and the kept caption keeps its leading space |
| Captions.CrLfExample | src/App.tsx:53 | `\r\n\r\n` does not separate captions |
| Captions.IsJsonContentType | src/App.tsx:44 | the JSON branch is taken exactly when a `content-type` header is present and `application/json` occurs somewhere in it |
| Captions.JsonContentTypeExamples | src/App.tsx:44 | a header `application/json; charset=utf-8` selects the JSON branch; `text/plain` or a missing header selects the body |
| Captions.ExtractCaptions | src/App.tsx:44-54 | the two branches, including the skipped split when `data.text` is empty or absent, give the captions of the selected text, and give none exactly when that text is blank |
| Captions.Generate | src/App.tsx:37-58 | a thrown request fails; a non-ok status fails with the request error; an ok reply succeeds exactly when its selected text (the JSON `text` field, or the body) is not blank, and then yields that text's captions, a non-empty list of well-shaped captions; when that text is blank it fails with the no-captions error (the error kinds reach only the console log) |
| Captions.EmptyJsonTextFails | src/App.tsx:44-58 | a JSON reply whose `text` is absent or empty fails with the no-captions error |
| Captions.BlankBodyExample | src/App.tsx:50-58 | the plain-text body `"   \n\n\n"` fails with the no-captions error |
| Captions.TwoCaptionReply | src/App.tsx:41-60 | an ok plain-text reply holding the example text succeeds with its two captions |
| AppState.SubmitStartLoads | src/App.tsx:19-22 | after the submission starts: loading, no error, no captions, no copy feedback; status Loading; the state is consistent |
| AppState.SubmitStart | src/App.tsx:19-22 | whatever the previous state, the first updates give a consistent Loading state with no copy feedback |
| AppState.SubmitSuccess | src/App.tsx:60 | `setCaptions` stores exactly the given list and changes nothing else |
| AppState.SubmitFailure | src/App.tsx:62 | `setError` stores the fixed message and changes nothing else; once loading is off the status is that error |
| AppState.Finish | src/App.tsx:65 | the `finally` block turns loading off, changes nothing else, and leaves a state that is not loading as it was |
| AppState.CopyOk | src/App.tsx:72 | the copy feedback moves to the copied index; nothing else and not the status changes |
| AppState.CopyClear | src/App.tsx:74 | the timer clears the copy feedback; nothing else and not the status changes; with no feedback shown it changes nothing |
| AppState.HandleSubmit | src/App.tsx:17-67 | after any outcome loading is off and copy feedback is cleared; success stores exactly the extracted captions with an empty error; any failure leaves no captions and sets the fixed message; the result is consistent and its status is Showing or Error accordingly |
| AppState.HandleCopy | src/App.tsx:69-79 | a successful clipboard write moves the copy feedback to that index; a failed one changes nothing; no other field changes |
| AppState.CopyKeepsStatus | src/App.tsx:72-74 | copying and the timer's clear never change the submission status; the clear sets the feedback to none and changes nothing else |
| AppState.StepPreservesConsistent | src/App.tsx:17-79 | every event the page can raise (a submission, a copy from a rendered card, the timer) keeps the state consistent |
| AppState.RunPreservesConsistent | src/App.tsx:12-79 | every state reached by a run of such events from a consistent state is consistent |
| AppState.InitialIsConsistent | src/App.tsx:12-15 | the initial `useState` values form a consistent, Idle state |
| Labels.Decimal | src/App.tsx:168 | the number in the heading is printed as non-empty decimal digits without leading zeros |
| Labels.DecimalRoundTrip | src/App.tsx:168 | reading back the printed decimal gives the number |
| Labels.CardHeadingNumbers | src/App.tsx:168 | with one caption the heading is `✨ Caption ` alone; with several it is `✨ Caption #` followed by digits reading back as the card's 1-based position |
| Labels.CardHeadingsDistinct | src/App.tsx:168 | among several captions no two cards have the same heading |
| Labels.CardHeading | src/App.tsx:168 | every heading starts with `✨ Caption `, and is that alone exactly when there is at most one caption |
| Labels.SubmitLabel | src/App.tsx:146 | the label is `Generate Captions` exactly when the requested count exceeds 1, else `Generate Caption` |
| Labels.LabelIgnoresResults | src/App.tsx:141-147 | when not loading, the button shows the label for the requested count, whatever the state's captions |
| Labels.CardsOf | src/App.tsx:160-187 | one card per caption, each showing its caption verbatim and marked copied exactly when its index is `copiedIndex` |
| Labels.Render | src/App.tsx:136-189 | the button is disabled and shows the spinner exactly while loading; the banner shows exactly when `error` is non-empty; there are as many cards as captions |
| Labels.RenderShows | src/App.tsx:141-187 | for a consistent state: one card per caption, in order and verbatim; at most one card marked copied, the one at `copiedIndex`; never both an error banner and cards; while loading only the disabled spinner |
| Labels.SuccessRenders | src/App.tsx:158-187 | after an ok reply whose selected text is not blank, the page shows one card per caption of that text, in order, headed as on line 168, none marked copied, and no banner |
| Labels.FailureRenders | src/App.tsx:152-156 | after a failed reply the page shows the fixed failure message and no card |

## Left out

- The `fetch` call, the webhook URL, the request headers and the JSON
  request body (src/App.tsx:25-35) are network I/O. The reply is the
  abstract `Response`.
- JSON and text body decoding are foreign library calls. A JSON `text`
  field is modelled as a string or absent. A `text` that is some other
  truthy JSON value (a number, say) would make `split` throw, which also
  ends in the failure state. The model does not represent it.
- `navigator.clipboard.writeText` and its logged failure (lines 71, 77) are
  a foreign asynchronous call. Their result is the `written` flag.
- `setTimeout` timing is left out, as is the race between overlapping copy
  timers, overlapping submissions, and a copy that resolves after a new
  submission started. These are asynchronous behaviour. The clear is a
  discrete event. `Enabled` requires a copy to target a rendered card.
- The `parseInt(...) || 0` coercion and the HTML `required`/`min` checks
  (lines 100, 113-131) are DOM number parsing. The requested count is an
  `int` parameter, and the keyword and word count are not modelled.
- JSX layout, styling, icons and `console.error` logging are left out.
- `split`'s implicit limit of 2^32-1 pieces is not modelled. No reply near
  that size is realistic.
- JavaScript strings are UTF-16. Here a string is a sequence of Unicode
  scalar values, so lone surrogates cannot be represented. Every character
  `trim` removes lies in the Basic Multilingual Plane, so trimming behaves
  the same.
- React may batch the `setState` calls of one synchronous segment. The
  model applies them in order, which gives the same resulting state.
