/**
 * The native event monitor: a recording flag guarding two event taps, and the
 * handlers that turn mouse and key events into steps. The OS calls are
 * outside the model: the handles they return and the values they read are
 * parameters.
 */
module Events {
  import opened Wrappers
  import opened Types
  import opened AxElement

  /** A non-null OS reference (an event tap, a run-loop source or a run loop). */
  type Handle = nat

  /** The CoreGraphics event types a tap can deliver. */
  datatype EventType =
    | LeftMouseDown | LeftMouseUp | RightMouseDown | RightMouseUp
    | LeftMouseDragged | RightMouseDragged | MouseMoved
    | KeyDown | KeyUp | FlagsChanged
    | OtherEvent(code: int)

  /**
   * The action and button a mouse event is recorded as: presses are clicks,
   * drags are drags, and releases, moves and every other type give no step.
   */
  function MouseAction(t: EventType): (r: Option<(Action, string)>)
    ensures r.Some? <==> t.LeftMouseDown? || t.RightMouseDown? || t.LeftMouseDragged? || t.RightMouseDragged?
    ensures r.Some? ==> r.value.0 == (if t.LeftMouseDown? || t.RightMouseDown? then Click else Drag)
    ensures r.Some? ==> r.value.1 == (if t.LeftMouseDown? || t.LeftMouseDragged? then "left" else "right")
  {
    match t
    case LeftMouseDown => Some((Click, "left"))
    case RightMouseDown => Some((Click, "right"))
    case LeftMouseUp => None
    case RightMouseUp => None
    case LeftMouseDragged => Some((Drag, "left"))
    case RightMouseDragged => Some((Drag, "right"))
    case MouseMoved => None
    case _ => None
  }

  // CGEventFlags masks of the four modifiers (CoreGraphics' CGEventTypes.h)
  const ShiftMask: bv64 := 0x0002_0000
  const ControlMask: bv64 := 0x0004_0000
  const AlternateMask: bv64 := 0x0008_0000
  const CommandMask: bv64 := 0x0010_0000
  const ModifierMasks: bv64 := ShiftMask | ControlMask | AlternateMask | CommandMask

  /**
   * Each modifier is the test of its own flag bit, so encoding the decoded
   * modifiers again gives back exactly the four modifier bits of the flags.
   */
  function DecodeModifiers(flags: bv64): (m: Modifiers)
    ensures EncodeModifiers(m) == flags & ModifierMasks
  {
    Modifiers(
      flags & ShiftMask != 0,
      flags & ControlMask != 0,
      flags & AlternateMask != 0,
      flags & CommandMask != 0)
  }

  /** The event flags that carry exactly the given modifiers. */
  function EncodeModifiers(m: Modifiers): bv64 {
    (if m.shift then ShiftMask else 0) |
    (if m.control then ControlMask else 0) |
    (if m.option then AlternateMask else 0) |
    (if m.command then CommandMask else 0)
  }

  /** Decoding recovers the modifiers the flags were built from. */
  lemma DecodeEncode(m: Modifiers)
    ensures DecodeModifiers(EncodeModifiers(m)) == m
  {
  }

  /** Bits outside the four masks (caps lock, numeric pad, ...) do not change the decoded modifiers. */
  lemma DecodeIgnoresOtherBits(flags: bv64, other: bv64)
    requires other & ModifierMasks == 0
    ensures DecodeModifiers(flags | other) == DecodeModifiers(flags)
  {
  }

  /** Toggling one modifier's bit flips that modifier and no other. */
  lemma ModifierBitsIndependent(flags: bv64)
    ensures DecodeModifiers(flags ^ ShiftMask) == DecodeModifiers(flags).(shift := !DecodeModifiers(flags).shift)
    ensures DecodeModifiers(flags ^ ControlMask) == DecodeModifiers(flags).(control := !DecodeModifiers(flags).control)
    ensures DecodeModifiers(flags ^ AlternateMask) == DecodeModifiers(flags).(option := !DecodeModifiers(flags).option)
    ensures DecodeModifiers(flags ^ CommandMask) == DecodeModifiers(flags).(command := !DecodeModifiers(flags).command)
  {
  }

  /**
   * `d` is the target descriptor read from `element`: its four strings, its
   * frame and its root-first ancestry path, or the empty descriptor when no
   * element was found.
   */
  ghost predicate Describes(d: TargetDescriptor, element: Option<ElementView>) {
    match element
    case None => d == EmptyDescriptor
    case Some(e) =>
      && d.role == StringAttribute(true, e.role)
      && d.title == StringAttribute(true, e.title)
      && d.identifier == StringAttribute(true, e.identifier)
      && d.value == StringAttribute(true, e.value)
      && d.frame == ElementFrame(true, e.position, e.size)
      && |d.ancestry| == |e.chain|
      && forall j :: 0 <= j < |e.chain| ==> d.ancestry[|e.chain| - 1 - j] == PathComponent(e.chain[j])
  }

  /**
   * A view the accessibility API can actually answer: the parent chain starts
   * with the element itself, read with the same string fallbacks.
   */
  predicate WellFormedView(e: ElementView) {
    && |e.chain| >= 1
    && e.chain[0] == ChainElement(StringAttribute(true, e.role), StringAttribute(true, e.title), StringAttribute(true, e.identifier))
  }

  /** For such a view the ancestry ends with the component of the described element itself. */
  lemma AncestryEndsWithElement(d: TargetDescriptor, e: ElementView)
    requires WellFormedView(e)
    requires Describes(d, Some(e))
    ensures |d.ancestry| >= 1
    ensures d.ancestry[|d.ancestry| - 1] == PathComponent(ChainElement(d.role, d.title, d.identifier))
  {
    assert d.ancestry[|e.chain| - 1 - 0] == PathComponent(e.chain[0]);
  }

  /**
   * `s` is the step handleMouseEvent records for a mouse event of type `t`:
   * its classified action and button, no text and no modifiers, and the
   * session id, time, location, application and element it was given.
   */
  ghost predicate RecordsMouseEvent(s: NativeStep, sessionId: string, t: EventType, location: Point,
                                    element: Option<ElementView>, app: ApplicationInfo, now: int) {
    && MouseAction(t).Some?
    && s.sessionId == sessionId
    && s.action == MouseAction(t).value.0
    && s.button == MouseAction(t).value.1
    && s.text == ""
    && s.timestamp == now
    && s.location == location
    && s.modifiers == NoModifiers
    && s.appInfo == app
    && Describes(s.targetDescriptor, element)
  }

  /**
   * `s` is the step handleKeyEvent records for a key press: a `type` step with
   * no button, the typed characters, the modifiers decoded from the flags, and
   * the session id, time, application and focused element it was given.
   */
  ghost predicate RecordsKeyEvent(s: NativeStep, sessionId: string, t: EventType, flags: bv64, typed: string,
                                  focused: Option<ElementView>, app: ApplicationInfo, now: int) {
    && t.KeyDown?
    && s.sessionId == sessionId
    && s.action == Type
    && s.button == ""
    && s.text == typed
    && s.timestamp == now
    && s.modifiers == DecodeModifiers(flags)
    && s.appInfo == app
    && Describes(s.targetDescriptor, focused)
  }

  /** Fills a step's target descriptor from the element under the mouse cursor or the focused element. */
  method DescribeTarget(element: Option<ElementView>) returns (d: TargetDescriptor)
    ensures Describes(d, element)
  {
    d := EmptyDescriptor;
    if element.Some? {
      var e := element.value;
      var ancestry := GetAncestryPath(e.chain);
      d := TargetDescriptor(
        StringAttribute(true, e.role),
        StringAttribute(true, e.title),
        StringAttribute(true, e.identifier),
        StringAttribute(true, e.value),
        ElementFrame(true, e.position, e.size),
        ancestry);
    }
  }

  class EventMonitor {
    var isRecording: bool
    var sessionId: string
    var mouseEventTap: Option<Handle>
    var keyEventTap: Option<Handle>
    var runLoop: Option<Handle>
    var mouseRunLoopSource: Option<Handle>
    var keyRunLoopSource: Option<Handle>
    /** Whether a step callback has been set. */
    var hasStepCallback: bool

    /**
     * While recording, both taps and the run loop are held; while stopped,
     * the run loop and both run-loop sources are released (a tap can stay
     * held after a start that failed on the other tap).
     */
    ghost predicate Valid()
      reads this
    {
      && (isRecording ==> mouseEventTap.Some? && keyEventTap.Some? && runLoop.Some?)
      && (!isRecording ==> runLoop.None? && mouseRunLoopSource.None? && keyRunLoopSource.None?)
    }

    constructor ()
      ensures Valid()
      ensures !isRecording && sessionId == "" && !hasStepCallback
      ensures mouseEventTap.None? && keyEventTap.None?
    {
      isRecording := false;
      sessionId := "";
      mouseEventTap, keyEventTap := None, None;
      runLoop, mouseRunLoopSource, keyRunLoopSource := None, None, None;
      hasStepCallback := false;
    }

    /**
     * startRecording. `mouseTap` and `keyTap` are what creating the two event
     * taps returned (None for a null tap), `mouseSource` and `keySource` the
     * run-loop sources made from them, `currentRunLoop` the current run loop.
     */
    method StartRecording(sid: string, mouseTap: Option<Handle>, keyTap: Option<Handle>,
                          mouseSource: Option<Handle>, keySource: Option<Handle>, currentRunLoop: Handle)
      returns (ok: bool)
      requires Valid()
      modifies this
      ensures Valid()
      ensures ok <==> !old(isRecording) && mouseTap.Some? && keyTap.Some?
      ensures hasStepCallback == old(hasStepCallback)
      // already recording: refused, and nothing changes, not even the session id
      ensures old(isRecording) ==> unchanged(this)
      // a tap is missing: refused and still stopped, with the session id and the taps as returned
      ensures !old(isRecording) && !ok ==>
        && !isRecording && sessionId == sid
        && mouseEventTap == mouseTap && keyEventTap == keyTap
        && runLoop.None? && mouseRunLoopSource.None? && keyRunLoopSource.None?
      // both taps exist: recording, with every handle held
      ensures ok ==>
        && isRecording && sessionId == sid
        && mouseEventTap == mouseTap && keyEventTap == keyTap
        && mouseRunLoopSource == mouseSource && keyRunLoopSource == keySource
        && runLoop == Some(currentRunLoop)
    {
      if isRecording {
        return false;
      }
      this.sessionId := sid;
      mouseEventTap := mouseTap;
      keyEventTap := keyTap;
      if mouseEventTap.None? || keyEventTap.None? {
        StopRecording();
        return false;
      }
      mouseRunLoopSource := mouseSource;
      keyRunLoopSource := keySource;
      runLoop := Some(currentRunLoop);
      isRecording := true;
      return true;
    }

    /** stopRecording: a no-op while stopped; otherwise stops and releases every handle. */
    method StopRecording()
      requires Valid()
      modifies this
      ensures Valid()
      ensures !old(isRecording) ==> unchanged(this)
      ensures old(isRecording) ==>
        && !isRecording
        && mouseEventTap.None? && keyEventTap.None?
        && mouseRunLoopSource.None? && keyRunLoopSource.None? && runLoop.None?
        && sessionId == old(sessionId) && hasStepCallback == old(hasStepCallback)
    {
      if !isRecording {
        return;
      }
      isRecording := false;
      if mouseEventTap.Some? {
        mouseEventTap := None;
      }
      if keyEventTap.Some? {
        keyEventTap := None;
      }
      if mouseRunLoopSource.Some? {
        mouseRunLoopSource := None;
      }
      if keyRunLoopSource.Some? {
        keyRunLoopSource := None;
      }
      runLoop := None;
    }

    method SetStepCallback(present: bool)
      modifies this
      ensures hasStepCallback == present
      ensures isRecording == old(isRecording) && sessionId == old(sessionId)
      ensures mouseEventTap == old(mouseEventTap) && keyEventTap == old(keyEventTap) && runLoop == old(runLoop)
      ensures mouseRunLoopSource == old(mouseRunLoopSource) && keyRunLoopSource == old(keyRunLoopSource)
    {
      hasStepCallback := present;
    }

    /**
     * handleMouseEvent: the step passed to the callback, if any. `location`
     * is the event location, `element` the element found under it, `app` the
     * front application and `now` the clock in milliseconds.
     */
    method HandleMouseEvent(t: EventType, location: Point, element: Option<ElementView>,
                            app: ApplicationInfo, now: int)
      returns (delivered: Option<NativeStep>)
      ensures delivered.Some? <==> isRecording && hasStepCallback && MouseAction(t).Some?
      ensures delivered.Some? ==> RecordsMouseEvent(delivered.value, sessionId, t, location, element, app, now)
    {
      if !isRecording || !hasStepCallback {
        return None;
      }
      var target := DescribeTarget(element);
      var action: Action;
      var button: string;
      match t {
        case LeftMouseDown =>
          action, button := Click, "left";
        case RightMouseDown =>
          action, button := Click, "right";
        case LeftMouseUp =>
          return None;
        case RightMouseUp =>
          return None;
        case LeftMouseDragged =>
          action, button := Drag, "left";
        case RightMouseDragged =>
          action, button := Drag, "right";
        case MouseMoved =>
          return None;
        case _ =>
          return None;
      }
      delivered := Some(NativeStep(now, sessionId, action, button, "", location, NoModifiers, target, app));
    }

    /**
     * handleKeyEvent: only a key press gives a step, a `type` step carrying the
     * typed characters `typed` ("" when none could be read), the modifiers
     * decoded from `flags` and the focused element.
     */
    method HandleKeyEvent(t: EventType, flags: bv64, typed: string, focused: Option<ElementView>,
                          app: ApplicationInfo, now: int)
      returns (delivered: Option<NativeStep>)
      ensures delivered.Some? <==> isRecording && hasStepCallback && t.KeyDown?
      ensures delivered.Some? ==> RecordsKeyEvent(delivered.value, sessionId, t, flags, typed, focused, app, now)
    {
      if !isRecording || !hasStepCallback {
        return None;
      }
      if !t.KeyDown? {
        return None;
      }
      var modifiers := Modifiers(
        flags & ShiftMask != 0,
        flags & ControlMask != 0,
        flags & AlternateMask != 0,
        flags & CommandMask != 0);
      var target := DescribeTarget(focused);
      delivered := Some(NativeStep(now, sessionId, Type, "", typed, Point(0, 0), modifiers, target, app));
    }
  }
}
