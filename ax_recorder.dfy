/**
 * The native addon object: a FIFO queue of captured steps fed by the event
 * monitor's callback, and the JavaScript-facing operations over it.
 */
module AxRecorder {
  import opened Wrappers
  import opened Types
  import opened AxElement
  import opened Events

  /** A JavaScript argument as the addon sees it. */
  datatype JsValue = JsString(s: string) | JsOther

  const SessionIdExpected := TypeError("Session ID string expected")

  /** The optional-field rule for strings: an empty native string is an absent property. */
  function OptionalString(s: string): (r: Option<string>)
    ensures r.Some? <==> s != ""
    ensures r.Some? ==> r.value == s
  {
    if s == "" then None else Some(s)
  }

  /**
   * RecordedStepToJS: every field is copied (the ancestry with the same
   * length and order); `button` and `text` become properties only when
   * non-empty.
   */
  function StepToJS(s: NativeStep): (r: RecordedStep)
    ensures r.button.Some? <==> s.button != ""
    ensures r.text.Some? <==> s.text != ""
    ensures r.targetDescriptor.ancestry == s.targetDescriptor.ancestry
  {
    RecordedStep(s.timestamp, s.sessionId, s.action, OptionalString(s.button), OptionalString(s.text),
                 s.location, s.modifiers, s.targetDescriptor, s.appInfo)
  }

  /** The native step a JavaScript step stands for: an absent property is the empty string. */
  function StepFromJS(r: RecordedStep): NativeStep {
    NativeStep(r.timestamp, r.sessionId, r.action, r.button.GetOr(""), r.text.GetOr(""),
               r.location, r.modifiers, r.targetDescriptor, r.appInfo)
  }

  /** The conversion loses nothing: the native step can be read back from its JavaScript form. */
  lemma StepToJSIsLossless(s: NativeStep)
    ensures StepFromJS(StepToJS(s)) == s
  {
  }

  /** Every JavaScript step without an empty-string `button` or `text` is the conversion of a native step. */
  lemma StepToJSReachesEveryStep(r: RecordedStep)
    requires r.button != Some("") && r.text != Some("")
    ensures StepToJS(StepFromJS(r)) == r
  {
  }

  /** The JavaScript array GetRecordedSteps builds from a queue: each step converted, in queue order. */
  function ToJsAll(q: seq<NativeStep>): (r: seq<RecordedStep>)
    ensures |r| == |q|
    ensures forall i :: 0 <= i < |q| ==> r[i] == StepToJS(q[i])
  {
    seq(|q|, i requires 0 <= i < |q| => StepToJS(q[i]))
  }

  /** Appending to the queue appends to its snapshot and leaves the earlier part alone. */
  lemma {:induction false} ToJsAllAppend(q: seq<NativeStep>, s: NativeStep)
    ensures ToJsAll(q + [s]) == ToJsAll(q) + [StepToJS(s)]
  {
    assert forall i :: 0 <= i < |q| ==> (q + [s])[i] == q[i];
  }

  class AXRecorder {
    /** The `recordedSteps` queue, front first. */
    var recordedSteps: seq<NativeStep>
    const monitor: EventMonitor

    /** Takes the process-wide monitor and registers OnStepRecorded as its step callback. */
    constructor (m: EventMonitor)
      modifies m
      ensures monitor == m && recordedSteps == []
      ensures m.hasStepCallback
      ensures m.isRecording == old(m.isRecording) && m.sessionId == old(m.sessionId)
      ensures m.mouseEventTap == old(m.mouseEventTap) && m.keyEventTap == old(m.keyEventTap)
      ensures m.runLoop == old(m.runLoop)
      ensures m.mouseRunLoopSource == old(m.mouseRunLoopSource) && m.keyRunLoopSource == old(m.keyRunLoopSource)
    {
      monitor := m;
      recordedSteps := [];
      new;
      m.SetStepCallback(true);
    }

    /**
     * StartRecording: without a string first argument it throws a TypeError
     * and leaves the monitor alone; otherwise it returns what the monitor's
     * startRecording returned.
     */
    method StartRecording(args: seq<JsValue>, mouseTap: Option<Handle>, keyTap: Option<Handle>,
                          mouseSource: Option<Handle>, keySource: Option<Handle>, currentRunLoop: Handle)
      returns (r: Result<bool, JsError>)
      requires monitor.Valid()
      modifies monitor
      ensures monitor.Valid()
      ensures |args| < 1 || !args[0].JsString? ==> r == Failure(SessionIdExpected) && unchanged(monitor)
      ensures |args| >= 1 && args[0].JsString? ==>
        && r.Success?
        && (r.value <==> !old(monitor.isRecording) && mouseTap.Some? && keyTap.Some?)
        && (old(monitor.isRecording) ==> unchanged(monitor))
        && (!old(monitor.isRecording) ==> monitor.isRecording == r.value && monitor.sessionId == args[0].s)
      ensures monitor.hasStepCallback == old(monitor.hasStepCallback)
    {
      if |args| < 1 || !args[0].JsString? {
        return Failure(SessionIdExpected);
      }
      var sessionId := args[0].s;
      var success := monitor.StartRecording(sessionId, mouseTap, keyTap, mouseSource, keySource, currentRunLoop);
      return Success(success);
    }

    /** StopRecording: stops the monitor, keeps the queue, always answers true. */
    method StopRecording() returns (ok: bool)
      requires monitor.Valid()
      modifies monitor
      ensures monitor.Valid()
      ensures ok && !monitor.isRecording
      ensures recordedSteps == old(recordedSteps)
      ensures !old(monitor.isRecording) ==> unchanged(monitor)
      ensures monitor.sessionId == old(monitor.sessionId) && monitor.hasStepCallback == old(monitor.hasStepCallback)
    {
      monitor.StopRecording();
      return true;
    }

    method IsRecording() returns (active: bool)
      ensures active == monitor.isRecording
    {
      active := monitor.isRecording;
    }

    /**
     * GetRecordedSteps: a snapshot of the queue, front first, built by popping
     * a copy into an array; the queue itself is not touched.
     */
    method GetRecordedSteps() returns (steps: seq<RecordedStep>)
      ensures |steps| == |recordedSteps|
      ensures forall i :: 0 <= i < |recordedSteps| ==> steps[i] == StepToJS(recordedSteps[i])
      ensures steps == ToJsAll(recordedSteps)
    {
      var arr := new RecordedStep[|recordedSteps|];
      var index := 0;
      var tempQueue := recordedSteps;
      while tempQueue != []
        invariant 0 <= index <= arr.Length
        invariant tempQueue == recordedSteps[index..]
        invariant forall k :: 0 <= k < index ==> arr[k] == StepToJS(recordedSteps[k])
      {
        arr[index] := StepToJS(tempQueue[0]);
        tempQueue := tempQueue[1..];
        index := index + 1;
      }
      steps := arr[..];
    }

    /** ClearSteps: swaps in an empty queue and answers true. */
    method ClearSteps() returns (ok: bool)
      modifies this
      ensures ok && recordedSteps == []
    {
      recordedSteps := [];
      return true;
    }

    /** OnStepRecorded: the step callback pushes the step at the back of the queue. */
    method OnStepRecorded(step: NativeStep)
      modifies this
      ensures recordedSteps == old(recordedSteps) + [step]
    {
      recordedSteps := recordedSteps + [step];
    }

    /** A mouse event reaching the monitor's tap; a step it records goes through the registered callback. */
    method OnMouseEvent(t: EventType, location: Point, element: Option<ElementView>, app: ApplicationInfo, now: int)
      returns (delivered: Option<NativeStep>)
      modifies this
      ensures delivered.Some? <==> monitor.isRecording && monitor.hasStepCallback && MouseAction(t).Some?
      ensures delivered.Some? ==> RecordsMouseEvent(delivered.value, monitor.sessionId, t, location, element, app, now)
      ensures recordedSteps == old(recordedSteps) + (if delivered.Some? then [delivered.value] else [])
    {
      delivered := monitor.HandleMouseEvent(t, location, element, app, now);
      if delivered.Some? {
        OnStepRecorded(delivered.value);
      }
    }

    /** A key event reaching the monitor's tap; a step it records goes through the registered callback. */
    method OnKeyEvent(t: EventType, flags: bv64, typed: string, focused: Option<ElementView>, app: ApplicationInfo, now: int)
      returns (delivered: Option<NativeStep>)
      modifies this
      ensures delivered.Some? <==> monitor.isRecording && monitor.hasStepCallback && t.KeyDown?
      ensures delivered.Some? ==> RecordsKeyEvent(delivered.value, monitor.sessionId, t, flags, typed, focused, app, now)
      ensures recordedSteps == old(recordedSteps) + (if delivered.Some? then [delivered.value] else [])
    {
      delivered := monitor.HandleKeyEvent(t, flags, typed, focused, app, now);
      if delivered.Some? {
        OnStepRecorded(delivered.value);
      }
    }
  }
}
