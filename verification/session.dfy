/** The capture session: the periodic frame timer, the captured-frame and
    processing flags, and how the tick, reset, start and stop handlers move
    them. Each handler runs to completion, so every event is one atomic step. */
module Session {
  import opened Wrappers
  import opened PlateText

  /** The page's global state. `timer` is `processingInterval`; `live` is the
      set of intervals the browser is still running, which the source cannot
      see but which tells whether a handle was lost; `nextId` is the handle
      the next `setInterval` returns (browsers hand out positive handles). */
  datatype SessionState = SessionState(
    openCvReady: bool,
    timer: Option<nat>,
    live: set<nat>,
    nextId: nat,
    captured: bool,
    processing: bool)

  /** Before OpenCV has loaded and before Start is pressed. */
  const Initial: SessionState := SessionState(false, None, {}, 1, false, false)

  /** What becomes of one frame before the flags are looked at: the camera has
      no picture yet, the picture read is empty, the frame's processing threw
      (reading, converting, filtering or detecting), or the detector ran and
      found a plate or not. */
  datatype FrameOutcome = CameraNotReady | EmptyFrame | ProcessingFailed | Detected(found: bool)

  /** The status line a tick leaves, or none when it returns silently. */
  datatype Message =
    | OpenCvNotReady | CameraMissing | SourceEmpty | ProcessingError
    | PlateDetected | Searching | NoPlateDetected | Silent

  /** Whether the tick hands the plate to the OCR stage, and when: after a
      100 ms timeout, or at once. */
  datatype OcrRequest = NoOcr | OcrLater | OcrNow

  datatype Reaction = Reaction(next: SessionState, message: Message, ocr: OcrRequest)

  /** How the OCR stage ended: the engine's text, or a throw anywhere in the
      stage, while preparing the plate image or inside the engine. */
  datatype OcrResult = Text(raw: string) | OcrStageFailed

  /** What the result line shows once the OCR stage is over. */
  datatype Display = Recognized(code: string) | NothingRecognized | PlateFailed

  datatype Event =
    | OpenCvLoaded
    | Tick(frame: FrameOutcome)
    | PlateProcessed(result: OcrResult)
    | Reset
    | Start
    | Stop

  /** Clear the interval and forget its handle, when a handle is held. */
  function StopTimer(s: SessionState): (t: SessionState) {
    if s.timer.Some? then s.(timer := None, live := s.live - {s.timer.value}) else s
  }

  /** Start a new interval and keep its handle, unless one is held already. */
  function StartTimer(s: SessionState): (t: SessionState) {
    if s.timer.None? then s.(timer := Some(s.nextId), live := s.live + {s.nextId}, nextId := s.nextId + 1)
    else s
  }

  /** `processImage`, given what became of the frame. */
  function ProcessImage(s: SessionState, frame: FrameOutcome): (reaction: Reaction) {
    if !s.openCvReady then Reaction(s, OpenCvNotReady, NoOcr)
    else if s.processing && s.captured then Reaction(s, Silent, NoOcr)
    else match frame
      case CameraNotReady => Reaction(s, CameraMissing, NoOcr)
      case EmptyFrame => Reaction(s, SourceEmpty, NoOcr)
      case ProcessingFailed => Reaction(s, ProcessingError, NoOcr)
      case Detected(found) =>
        if !found then Reaction(s, if s.processing then NoPlateDetected else Searching, NoOcr)
        else if !s.processing then
          Reaction(StopTimer(s).(captured := true, processing := true), PlateDetected, OcrLater)
        else Reaction(s, Silent, OcrNow)
  }

  /** Drop the captured frame, clear the flag, and make sure the timer runs:
      the common part of `resetCapture` and `handleStartButton`. */
  function Rearm(s: SessionState): (t: SessionState) {
    StartTimer(s.(captured := false, processing := false))
  }

  /** `handleStopButton`, apart from stopping the camera. */
  function Halt(s: SessionState): (t: SessionState) {
    StopTimer(s).(captured := false, processing := false)
  }

  /** The result line after OCR: the normalised text, or a fixed message
      when it is empty or the OCR stage threw. */
  function ShowOcr(result: OcrResult): (d: Display)
    ensures d.PlateFailed? <==> result.OcrStageFailed?
    ensures d.NothingRecognized? <==> result.Text? && Normalise(result.raw) == ""
    ensures d.Recognized? ==> result.Text? && d.code == Normalise(result.raw) && d.code != ""
  {
    match result
    case OcrStageFailed => PlateFailed
    case Text(raw) =>
      var code := Normalise(raw);
      if code == "" then NothingRecognized else Recognized(code)
  }

  /** The session after an event. The OCR stage (`processPlateFrame`) only
      writes the page and leaves the session as it was. */
  function Step(s: SessionState, e: Event): (next: SessionState) {
    match e
    case OpenCvLoaded => s.(openCvReady := true)
    case Tick(frame) => ProcessImage(s, frame).next
    case PlateProcessed(_) => s
    case Reset => Rearm(s)
    case Start => Rearm(s)
    case Stop => Halt(s)
  }

  function Run(s: SessionState, events: seq<Event>): (t: SessionState)
    decreases |events|
  {
    if |events| == 0 then s else Run(Step(s, events[0]), events[1..])
  }

  /** The invariant of the session: the two flags move together, the timer
      is off while a captured frame is processed, the held handle is the one
      and only running interval, and handles are never reused. */
  predicate Valid(s: SessionState) {
    && s.processing == s.captured
    && (s.timer.Some? ==> !s.processing)
    && s.live == (if s.timer.Some? then {s.timer.value} else {})
    && (s.timer.Some? ==> s.timer.value < s.nextId)
  }

  lemma InitialIsValid()
    ensures Valid(Initial)
  {
  }

  lemma StepPreservesValid(s: SessionState, e: Event)
    requires Valid(s)
    ensures Valid(Step(s, e))
  {
  }

  lemma {:induction false} RunPreservesValid(s: SessionState, events: seq<Event>)
    requires Valid(s)
    ensures Valid(Run(s, events))
    decreases |events|
  {
    if |events| > 0 {
      StepPreservesValid(s, events[0]);
      RunPreservesValid(Step(s, events[0]), events[1..]);
    }
  }

  /** However the buttons are pressed and whatever the frames show, there is
      never more than one interval running, and the page always holds its
      handle. */
  lemma NeverTwoTimers(events: seq<Event>)
    ensures var s := Run(Initial, events);
      |s.live| <= 1 && (s.live != {} <==> s.timer.Some?)
  {
    InitialIsValid();
    RunPreservesValid(Initial, events);
  }

  /** A tick while a captured frame is being processed changes nothing and
      starts no OCR. */
  lemma TickWhileProcessingIsNoop(s: SessionState, frame: FrameOutcome)
    requires s.processing && s.captured
    ensures ProcessImage(s, frame).next == s
    ensures ProcessImage(s, frame).ocr == NoOcr
  {
  }

  /** A found plate while scanning stops the timer, sets both flags, and hands
      the plate to the OCR stage after the timeout. */
  lemma FoundWhileScanning(s: SessionState)
    requires Valid(s) && s.openCvReady && !s.processing
    ensures var r := ProcessImage(s, Detected(true));
      && r.next.timer.None? && r.next.live == {}
      && r.next.captured && r.next.processing
      && r.ocr == OcrLater && r.message == PlateDetected
  {
  }

  /** In a valid session the branch of `processImage` that runs the OCR
      stage directly is never taken: a processing session has a captured
      frame, so the tick returns before it looks at the frame. */
  lemma ValidNeverOcrNow(s: SessionState, frame: FrameOutcome)
    requires Valid(s)
    ensures ProcessImage(s, frame).ocr != OcrNow
  {
  }

  /** Only a found plate while scanning changes the session on a tick. */
  lemma TickChangesOnlyOnFound(s: SessionState, frame: FrameOutcome)
    requires ProcessImage(s, frame).next != s
    ensures s.openCvReady && !s.processing && frame == Detected(true)
  {
  }

  /** Stop leaves no timer, no captured frame and no processing. */
  lemma StopClearsAll(s: SessionState)
    requires Valid(s)
    ensures var t := Step(s, Stop);
      t.timer.None? && t.live == {} && !t.captured && !t.processing
  {
  }

  /** Start and reset clear the flags and leave exactly one timer running:
      the one already held, if any, and otherwise a fresh one. */
  lemma RearmLeavesOneTimer(s: SessionState, e: Event)
    requires Valid(s) && (e == Start || e == Reset)
    ensures var t := Step(s, e);
      && !t.captured && !t.processing
      && t.timer.Some? && t.live == {t.timer.value}
      && (s.timer.Some? ==> t.timer == s.timer && t.nextId == s.nextId)
      && (s.timer.None? ==> t.timer.value !in s.live)
  {
  }

  /** Pressing Start twice starts one timer, not two. */
  lemma StartIsIdempotent(s: SessionState)
    requires Valid(s)
    ensures Step(Step(s, Start), Start) == Step(s, Start)
  {
  }

  /** The OCR stage leaves the session as it found it. */
  lemma OcrLeavesSession(s: SessionState, result: OcrResult)
    ensures Step(s, PlateProcessed(result)) == s
  {
  }

  /** A code is only ever shown if it is made of `[A-Z0-9]` characters and
      cut from the cleaned text. */
  lemma ShownCodeIsClean(result: OcrResult)
    ensures var d := ShowOcr(result);
      d.Recognized? ==>
        (forall i :: 0 <= i < |d.code| ==> IsPlateChar(d.code[i])) && IsSubsequence(d.code, result.raw)
  {
    if result.Text? {
      NormaliseIsDeletion(result.raw);
    }
  }

  /** A complete scan: Start, a frame without a plate, a frame with one, then
      the OCR result. */
  lemma ScanExample(raw: string)
    ensures var s := Run(Initial, [OpenCvLoaded, Start, Tick(Detected(false)), Tick(Detected(true)), PlateProcessed(Text(raw))]);
      s == SessionState(true, None, {}, 2, true, true)
  {
    var events := [OpenCvLoaded, Start, Tick(Detected(false)), Tick(Detected(true)), PlateProcessed(Text(raw))];
    var ready := SessionState(true, None, {}, 1, false, false);
    var scanning := SessionState(true, Some(1), {1}, 2, false, false);
    var locked := SessionState(true, None, {}, 2, true, true);
    assert Step(Initial, events[0]) == ready;
    assert Step(ready, events[1]) == scanning;
    assert Step(scanning, events[2]) == scanning;
    assert Step(scanning, events[3]) == locked;
    assert Step(locked, events[4]) == locked;
    assert Run(locked, events[5..]) == locked;
    assert Run(locked, events[4..]) == Run(locked, events[5..]);
    assert Run(scanning, events[3..]) == Run(locked, events[4..]);
    assert Run(scanning, events[2..]) == Run(scanning, events[3..]);
    assert Run(ready, events[1..]) == Run(scanning, events[2..]);
  }
}
