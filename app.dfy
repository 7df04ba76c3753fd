/** The view-state controller of the page (App.tsx): the transformation
    record and the current phase, changed by the upload, transform and reset
    handlers. The asynchronous transform is split into the step that starts
    it and the step that receives the client's outcome. The controls the
    page renders in each phase decide which handler can run, and that gating
    is what keeps phase and record consistent. */
module App {
  import opened Wrappers
  import opened Types
  import GeminiService

  /** Everything the page holds: the record and the phase. */
  datatype Snapshot = Snapshot(state: TransformationState, view: ViewMode)

  /** The record at start-up and after a reset. */
  const InitialState := TransformationState(None, None, false, None)

  const Initial := Snapshot(InitialState, Upload)

  /** What the user (or the awaited file read or service call) can do.
      `file` is the file chosen in the picker, if any, and then what the
      reader produced for it: a data URL, or nothing when the read failed. */
  datatype Action =
    | SelectFile(file: Option<Option<string>>)
    | StartTransform
    | FinishTransform(outcome: Result<string, string>)
    | Reset

  /** The phase/record invariant: Upload holds no image, Preview holds the
      original only, Result holds both; a request is in flight only in
      Preview; the error is clear in Upload, in Result and while a request is
      in flight. */
  ghost predicate Consistent(s: Snapshot)
  {
    (match s.view
     case Upload =>
       s.state.originalImage.None? && s.state.editedImage.None?
       && !s.state.isProcessing && s.state.error.None?
     case Preview =>
       s.state.originalImage.Some? && s.state.editedImage.None?
     case Result =>
       s.state.originalImage.Some? && s.state.editedImage.Some?
       && !s.state.isProcessing && s.state.error.None?)
    && (s.state.isProcessing ==> s.state.error.None?)
  }

  /** Which actions the page offers in a snapshot: the file input only in
      Upload; the transform button only in Preview and disabled while
      processing; Cancel in Preview, disabled while processing, and "Create
      New Look" in Result; a transform can only finish while one is in
      flight. */
  predicate Enabled(s: Snapshot, a: Action)
  {
    match a
    case SelectFile(_) => s.view == Upload
    case StartTransform => s.view == Preview && !s.state.isProcessing
    case FinishTransform(_) => s.state.isProcessing
    case Reset => (s.view == Preview && !s.state.isProcessing) || s.view == Result
  }

  /** The file reader produced a string (or no file was chosen). */
  predicate ReadSucceeded(a: Action)
  {
    a.SelectFile? && a.file.Some? ==> a.file.value.Some?
  }

  /** handleFileUpload: with a file chosen, store what the reader produced,
      clear the error and move to Preview; with none, nothing happens. */
  function Uploaded(s: Snapshot, file: Option<Option<string>>): Snapshot
  {
    match file
    case None => s
    case Some(read) => Snapshot(s.state.(originalImage := read, error := None), Preview)
  }

  /** The original image passes the handler's `!state.originalImage` test:
      it is present and not the (falsy) empty string. */
  predicate HasOriginal(state: TransformationState)
  {
    state.originalImage.Some? && state.originalImage.value != []
  }

  /** The start of handleTransform: without an original image (null or empty)
      it returns at once; otherwise it marks the request in flight and clears
      the error. */
  function TransformStarted(s: Snapshot): Snapshot
  {
    if !HasOriginal(s.state) then s
    else s.(state := s.state.(isProcessing := true, error := None))
  }

  /** The end of handleTransform: on success store the edited image, clear
      the flag and move to Result; on failure clear the flag and store the
      message, staying in the same phase. */
  function TransformFinished(s: Snapshot, outcome: Result<string, string>): Snapshot
  {
    match outcome
    case Success(image) => Snapshot(s.state.(editedImage := Some(image), isProcessing := false), Result)
    case Failure(message) => s.(state := s.state.(isProcessing := false, error := Some(message)))
  }

  function Step(s: Snapshot, a: Action): Snapshot
  {
    match a
    case SelectFile(file) => Uploaded(s, file)
    case StartTransform => TransformStarted(s)
    case FinishTransform(outcome) => TransformFinished(s, outcome)
    case Reset => Initial
  }

  /** The snapshot after running `trace` from `s`. */
  function Run(s: Snapshot, trace: seq<Action>): Snapshot
    decreases |trace|
  {
    if trace == [] then s else Run(Step(s, trace[0]), trace[1..])
  }

  /** Every action of `trace` is offered by the page when it happens, and
      every file read succeeds. */
  predicate Allowed(s: Snapshot, trace: seq<Action>)
    decreases |trace|
  {
    trace == [] ||
    (Enabled(s, trace[0]) && ReadSucceeded(trace[0]) && Allowed(Step(s, trace[0]), trace[1..]))
  }

  /** One offered action keeps the invariant. */
  lemma StepKeepsConsistent(s: Snapshot, a: Action)
    requires Consistent(s) && Enabled(s, a) && ReadSucceeded(a)
    ensures Consistent(Step(s, a))
  {
  }

  /** Every snapshot the page can reach from start-up through offered
      actions satisfies the invariant. */
  lemma {:induction false} ReachableConsistent(s: Snapshot, trace: seq<Action>)
    requires Consistent(s) && Allowed(s, trace)
    ensures Consistent(Run(s, trace))
    decreases |trace|
  {
    if trace != [] {
      StepKeepsConsistent(s, trace[0]);
      ReachableConsistent(Step(s, trace[0]), trace[1..]);
    }
  }

  /** The initial snapshot is consistent, so everything reachable from it is. */
  lemma InitialReachesOnlyConsistent(trace: seq<Action>)
    requires Allowed(Initial, trace)
    ensures Consistent(Run(Initial, trace))
  {
    ReachableConsistent(Initial, trace);
  }

  /** The invariant needs the file read to succeed: a failed read moves to
      Preview with no original image. */
  lemma FailedReadBreaksInvariant()
    ensures Enabled(Initial, SelectFile(Some(None)))
    ensures !Consistent(Step(Initial, SelectFile(Some(None))))
  {
  }

  /** An upload that read an empty string leaves the transform button
      without effect: the empty string is falsy, so no request starts. */
  lemma EmptyOriginalStartsNothing()
    ensures Enabled(Step(Initial, SelectFile(Some(Some("")))), StartTransform)
    ensures Step(Step(Initial, SelectFile(Some(Some("")))), StartTransform)
            == Step(Initial, SelectFile(Some(Some(""))))
    ensures !Step(Step(Initial, SelectFile(Some(Some("")))), StartTransform).state.isProcessing
  {
  }

  /** Reset leads to the initial snapshot from anywhere, so a second reset
      changes nothing. */
  lemma ResetIdempotent(s: Snapshot)
    ensures Step(s, Reset) == Initial
    ensures Step(Step(s, Reset), Reset) == Step(s, Reset)
  {
  }

  /** The component: the record and the phase as fields, one method per
      handler. */
  class AppComponent {
    var state: TransformationState
    var view: ViewMode

    function Current(): Snapshot
      reads this
    {
      Snapshot(state, view)
    }

    ghost predicate Valid()
      reads this
    {
      Consistent(Current())
    }

    /** The two state hooks start with an empty record and the Upload phase. */
    constructor ()
      ensures state == TransformationState(None, None, false, None) && view == Upload
      ensures Valid()
    {
      state := InitialState;
      view := Upload;
    }

    /** handleFileUpload, offered only in Upload. */
    method HandleFileUpload(file: Option<Option<string>>)
      requires view == Upload
      modifies this
      ensures file.None? ==> state == old(state) && view == old(view)
      ensures file.Some? ==>
                view == Preview && state == old(state).(originalImage := file.value, error := None)
      ensures Current() == Step(old(Current()), SelectFile(file))
      ensures old(Valid()) && ReadSucceeded(SelectFile(file)) ==> Valid()
    {
      if file.Some? {
        state := state.(originalImage := file.value, error := None);
        view := Preview;
      }
    }

    /** The first half of handleTransform, offered in Preview when no
      request is in flight. */
    method BeginTransform()
      requires view == Preview && !state.isProcessing
      modifies this
      ensures !HasOriginal(old(state)) ==> state == old(state) && view == old(view)
      ensures HasOriginal(old(state)) ==>
                view == old(view) && state == old(state).(isProcessing := true, error := None)
      ensures Current() == Step(old(Current()), StartTransform)
      ensures old(Valid()) ==> Valid()
    {
      if !HasOriginal(state) {
        return;
      }
      state := state.(isProcessing := true, error := None);
    }

    /** The second half of handleTransform, when the awaited call settles. */
    method CompleteTransform(outcome: Result<string, string>)
      requires state.isProcessing
      modifies this
      ensures outcome.Success? ==>
                view == Result && state == old(state).(editedImage := Some(outcome.value), isProcessing := false)
      ensures outcome.Failure? ==>
                view == old(view) && state == old(state).(isProcessing := false, error := Some(outcome.error))
      ensures Current() == Step(old(Current()), FinishTransform(outcome))
      ensures old(Valid()) ==> Valid()
    {
      match outcome {
        case Success(result) =>
          state := state.(editedImage := Some(result), isProcessing := false);
          view := Result;
        case Failure(message) =>
          state := state.(isProcessing := false, error := Some(message));
      }
    }

    /** handleTransform run to completion with the transform client, with
      nothing else happening while the call is awaited. */
    method HandleTransform(apiKey: Option<string>, service: GeminiService.Request -> GeminiService.RemoteOutcome)
      requires view == Preview && !state.isProcessing
      modifies this
      ensures !HasOriginal(old(state)) ==> state == old(state) && view == old(view)
      ensures HasOriginal(old(state)) ==>
        var outcome := GeminiService.ClientOutcome(apiKey, old(state).originalImage.value, service);
        Current() == Step(Step(old(Current()), StartTransform), FinishTransform(outcome))
      ensures old(Valid()) ==> Valid()
      ensures view == Result ==> "data:" <= state.editedImage.value
      ensures HasOriginal(old(state)) && view == Preview ==> state.error.Some? && state.error.value != []
    {
      BeginTransform();
      if !state.isProcessing {
        return;
      }
      var result := GeminiService.TransformImageToCowboy(apiKey, state.originalImage.value, service);
      CompleteTransform(result);
    }

    /** reset, offered by Cancel in Preview when nothing is in flight and by
      "Create New Look" in Result. */
    method ResetView()
      requires (view == Preview && !state.isProcessing) || view == Result
      modifies this
      ensures state == TransformationState(None, None, false, None) && view == Upload
      ensures Current() == Step(old(Current()), Reset)
      ensures Valid()
    {
      state := TransformationState(None, None, false, None);
      view := Upload;
    }
  }
}
