/** The component's result state and the updates `handleSubmit` and
    `handleCopy` make to it (src/App.tsx, lines 12-15 and 17-79). The form
    fields are not part of this record: the handlers never change them. */
module AppState {

  import opened Wrappers
  import opened BlankLineSplit
  import opened Captions

  /** The one message every failed submission shows. */
  const FailureMessage: string := "Failed to generate caption. Please try again."

  /** `isLoading`, `error`, `captions` and `copiedIndex`. */
  datatype UiState = UiState(isLoading: bool, error: string, captions: seq<string>, copiedIndex: Option<nat>)

  /** The values `useState` starts with. */
  const Initial: UiState := UiState(false, "", [], None)

  /** The status the rendering derives from the state. */
  datatype UiStatus = Idle | Loading | Error(message: string) | Showing(count: nat)

  function Status(s: UiState): UiStatus
  {
    if s.isLoading then Loading
    else if s.error != [] then Error(s.error)
    else if |s.captions| > 0 then Showing(|s.captions|)
    else Idle
  }

  // The individual state updates, in the order the handlers make them.

  /** Lines 19-22: loading, no error, no captions, no copy feedback. */
  function SubmitStart(s: UiState): (t: UiState)
    ensures Status(t) == Loading && Consistent(t) && t.copiedIndex == None
  {
    UiState(true, "", [], None)
  }

  /** Line 60. */
  function SubmitSuccess(s: UiState, captions: seq<string>): (t: UiState)
    ensures t.captions == captions && t.(captions := s.captions) == s
  {
    s.(captions := captions)
  }

  /** Line 62. */
  function SubmitFailure(s: UiState): (t: UiState)
    ensures t.error == FailureMessage && t.(error := s.error) == s
    ensures !t.isLoading ==> Status(t) == Error(FailureMessage)
  {
    s.(error := FailureMessage)
  }

  /** Line 65, the `finally` block. */
  function Finish(s: UiState): (t: UiState)
    ensures !t.isLoading && t.(isLoading := s.isLoading) == s
    ensures !s.isLoading ==> t == s
  {
    s.(isLoading := false)
  }

  /** Line 72. */
  function CopyOk(s: UiState, index: nat): (t: UiState)
    ensures t.copiedIndex == Some(index) && t.(copiedIndex := s.copiedIndex) == s
    ensures Status(t) == Status(s)
  {
    s.(copiedIndex := Some(index))
  }

  /** Line 74, when the two-second timer fires. */
  function CopyClear(s: UiState): (t: UiState)
    ensures t.copiedIndex == None && t.(copiedIndex := s.copiedIndex) == s
    ensures Status(t) == Status(s) && (s.copiedIndex == None ==> t == s)
  {
    s.(copiedIndex := None)
  }

  /** What a consistent screen looks like: while loading there is neither an
      error nor a caption; an error and captions never show together; the
      error is empty or the fixed message; every caption is well shaped; and
      the copy feedback, when shown, points at a card. */
  ghost predicate Consistent(s: UiState)
  {
    && (s.isLoading ==> s.error == [] && s.captions == [])
    && (s.error == [] || s.error == FailureMessage)
    && (s.error != [] ==> s.captions == [])
    && (forall k :: 0 <= k < |s.captions| ==> IsCaption(s.captions[k]))
    && (s.copiedIndex.Some? ==> s.copiedIndex.value < |s.captions|)
  }

  /** The screen while the request is in flight. */
  lemma SubmitStartLoads(s: UiState)
    ensures SubmitStart(s).isLoading && SubmitStart(s).error == []
    ensures SubmitStart(s).captions == [] && SubmitStart(s).copiedIndex == None
    ensures Status(SubmitStart(s)) == Loading && Consistent(SubmitStart(s))
  {
  }

  /** The whole of `handleSubmit`: start loading, then record the captions or
      the failure, then stop loading whatever happened. */
  function HandleSubmit(s: UiState, r: Response): (t: UiState)
    ensures !t.isLoading && t.copiedIndex == None
    ensures Generate(r).Success? ==> t.captions == Generate(r).value && t.error == []
    ensures Generate(r).Failure? ==> t.captions == [] && t.error == FailureMessage
    ensures Consistent(t)
    ensures Status(t) == (if Generate(r).Success? then Showing(|Generate(r).value|) else Error(FailureMessage))
  {
    var loading := SubmitStart(s);
    match Generate(r)
    case Success(captions) => Finish(SubmitSuccess(loading, captions))
    case Failure(_) => Finish(SubmitFailure(loading))
  }

  /** The whole of `handleCopy`: the feedback moves to `index` once the
      clipboard write succeeds; a failed write only logs. */
  function HandleCopy(s: UiState, index: nat, written: bool): (t: UiState)
    ensures t.copiedIndex == (if written then Some(index) else s.copiedIndex)
    ensures t.(copiedIndex := s.copiedIndex) == s
  {
    if written then CopyOk(s, index) else s
  }

  /** The events the component reacts to. */
  datatype Event =
    | Submit(response: Response)
    | Copy(index: nat, written: bool)
    | CopyTimerFired

  function Step(s: UiState, e: Event): UiState
  {
    match e
    case Submit(r) => HandleSubmit(s, r)
    case Copy(i, w) => HandleCopy(s, i, w)
    case CopyTimerFired => CopyClear(s)
  }

  /** A copy button exists only on a rendered card. */
  predicate Enabled(s: UiState, e: Event)
  {
    e.Copy? ==> e.index < |s.captions|
  }

  /** Every event the page can raise keeps the screen consistent. */
  lemma StepPreservesConsistent(s: UiState, e: Event)
    requires Consistent(s) && Enabled(s, e)
    ensures Consistent(Step(s, e))
  {
  }

  /** Copy feedback is orthogonal to the submission status. */
  lemma CopyKeepsStatus(s: UiState, index: nat, written: bool)
    ensures Status(HandleCopy(s, index, written)) == Status(s)
    ensures Status(CopyClear(s)) == Status(s)
    ensures CopyClear(s).copiedIndex == None && CopyClear(s).(copiedIndex := s.copiedIndex) == s
  {
  }

  /** Any run of enabled events from the initial state. */
  ghost predicate EnabledRun(s: UiState, events: seq<Event>)
    decreases |events|
  {
    |events| == 0 || (Enabled(s, events[0]) && EnabledRun(Step(s, events[0]), events[1..]))
  }

  function Run(s: UiState, events: seq<Event>): UiState
    decreases |events|
  {
    if |events| == 0 then s else Run(Step(s, events[0]), events[1..])
  }

  /** Every screen reachable from the initial state is consistent. */
  lemma {:induction false} RunPreservesConsistent(s: UiState, events: seq<Event>)
    requires Consistent(s) && EnabledRun(s, events)
    ensures Consistent(Run(s, events))
    decreases |events|
  {
    if |events| > 0 {
      StepPreservesConsistent(s, events[0]);
      RunPreservesConsistent(Step(s, events[0]), events[1..]);
    }
  }

  lemma InitialIsConsistent()
    ensures Consistent(Initial) && Status(Initial) == Idle
  {
  }
}
