/**
 * MacRecorder (recorder.ts): the JavaScript session controller over the
 * native AXRecorder. It guards a two-state lifecycle with the current session
 * id, polls the native step buffer and announces what it finds, and hands the
 * whole buffer back when the session stops. Timers are modelled as an
 * explicit Tick (one firing of the 100 ms interval) and the EventEmitter as
 * the `notifications` log.
 */
module Recorder {
  import opened Wrappers
  import opened Types
  import opened AxElement
  import opened Events
  import opened AxRecorder
  import FlowSynthesis

  const AlreadyInProgress := Error("Recording is already in progress")
  const StartFailed := Error("Failed to start recording. Make sure accessibility permissions are granted.")
  const NoActiveSession := Error("No recording session is active")

  /** What the recorder emits: `recordingStarted`, `recordingStopped` and `stepRecorded`. */
  datatype Notification =
    | RecordingStarted(sessionId: string)
    | RecordingStopped
    | StepRecorded(step: RecordedStep)

  /**
   * What the recorder does, in order: the state-changing and reading calls on
   * the native provider, the changes to its polling timer, and its emissions.
   */
  datatype Effect =
    | NativeStart(sessionId: string)
    | NativeStop
    | NativeRead
    | NativeClear
    | PollingStarted
    | PollingStopped
    | Emitted(notification: Notification)

  /** The emission of each notification, in order. */
  function Emits(ns: seq<Notification>): (r: seq<Effect>)
    ensures |r| == |ns|
    ensures forall i :: 0 <= i < |ns| ==> r[i] == Emitted(ns[i])
  {
    seq(|ns|, i requires 0 <= i < |ns| => Emitted(ns[i]))
  }

  /** One `stepRecorded` notification per step, in order. */
  function Announce(batch: seq<RecordedStep>): (r: seq<Notification>)
    ensures |r| == |batch|
    ensures forall i :: 0 <= i < |batch| ==> r[i] == StepRecorded(batch[i])
  {
    seq(|batch|, i requires 0 <= i < |batch| => StepRecorded(batch[i]))
  }

  /** Announcing two batches one after the other is announcing them together. */
  lemma AnnounceAppend(a: seq<RecordedStep>, b: seq<RecordedStep>)
    ensures Announce(a + b) == Announce(a) + Announce(b)
  {
    assert forall i :: 0 <= i < |a + b| ==> Announce(a + b)[i] == (Announce(a) + Announce(b))[i];
  }

  /** Emitting two runs of notifications one after the other is emitting them together. */
  lemma EmitsAppend(a: seq<Notification>, b: seq<Notification>)
    ensures Emits(a + b) == Emits(a) + Emits(b)
  {
    assert forall i :: 0 <= i < |a + b| ==> Emits(a + b)[i] == (Emits(a) + Emits(b))[i];
  }

  /** `allSteps.slice(start)`: the steps from `start` on, and none when `start` is past the end. */
  function SliceFrom(all: seq<RecordedStep>, start: nat): (r: seq<RecordedStep>)
    ensures start <= |all| ==> all == all[..start] + r
    ensures start >= |all| ==> r == []
  {
    if start <= |all| then all[start..] else []
  }

  // ---------------------------------------------------------------- polling over an append-only buffer

  /** The buffer only grows: each reading extends the one before it, starting from `seen`. */
  predicate Grows(seen: seq<RecordedStep>, readings: seq<seq<RecordedStep>>) {
    && (readings != [] ==> seen <= readings[0])
    && forall i :: 0 <= i < |readings| - 1 ==> readings[i] <= readings[i + 1]
  }

  /**
   * The concatenated batches that successive polls return when the buffer
   * reads `readings` in turn and the cursor starts at `cursor`.
   */
  function Batches(cursor: nat, readings: seq<seq<RecordedStep>>): seq<RecordedStep>
    decreases |readings|
  {
    if readings == [] then [] else SliceFrom(readings[0], cursor) + Batches(|readings[0]|, readings[1..])
  }

  /** The readings after the first still grow, from the first one on. */
  lemma GrowsTail(seen: seq<RecordedStep>, readings: seq<seq<RecordedStep>>)
    requires |readings| >= 2
    requires Grows(seen, readings)
    ensures Grows(readings[0], readings[1..])
  {
    var rest := readings[1..];
    forall i | 0 <= i < |rest| - 1
      ensures rest[i] <= rest[i + 1]
    {
      assert rest[i] == readings[i + 1] && rest[i + 1] == readings[i + 2];
    }
  }

  /**
   * Exactly-once delivery: while the buffer only grows, what has been seen
   * plus every batch polled afterwards is the buffer as last read, with no
   * step repeated and none skipped.
   */
  lemma {:induction false} BatchesAreExact(seen: seq<RecordedStep>, readings: seq<seq<RecordedStep>>)
    requires readings != []
    requires Grows(seen, readings)
    ensures seen + Batches(|seen|, readings) == readings[|readings| - 1]
    decreases |readings|
  {
    var first := readings[0];
    var batch := SliceFrom(first, |seen|);
    var rest := readings[1..];
    assert seen + batch == first;
    assert Batches(|seen|, readings) == batch + Batches(|first|, rest);
    if rest == [] {
      assert Batches(|first|, rest) == [];
      assert batch + [] == batch;
    } else {
      GrowsTail(seen, readings);
      BatchesAreExact(first, rest);
      assert rest[|rest| - 1] == readings[|readings| - 1];
      FlowSynthesis.ConcatAssoc(seen, batch, Batches(|first|, rest));
    }
  }

  // ---------------------------------------------------------------- the session guard as written

  /** JavaScript truthiness of a `string | null`: null and "" are both falsy. */
  predicate Truthy(id: Option<string>) {
    id.Some? && id.value != ""
  }

  /** The lifecycle state `if (this.currentSessionId)` looks at, and whether the native side is recording. */
  datatype Lifecycle = Lifecycle(currentSessionId: Option<string>, nativeRecording: bool)

  /** startRecording with its truthiness guard; `tapsCreated` is whether the native layer could create its taps. */
  function StartAsWritten(l: Lifecycle, sessionId: string, tapsCreated: bool): (r: (Lifecycle, Result<(), JsError>))
    ensures Truthy(l.currentSessionId) ==> r == (l, Failure(AlreadyInProgress))
    ensures r.1.Success? <==> !Truthy(l.currentSessionId) && !l.nativeRecording && tapsCreated
    ensures r.1.Success? ==> r.0 == Lifecycle(Some(sessionId), true)
    ensures !Truthy(l.currentSessionId) && r.1.Failure? ==> r == (l, Failure(StartFailed))
  {
    if Truthy(l.currentSessionId) then (l, Failure(AlreadyInProgress))
    else if l.nativeRecording || !tapsCreated then (l, Failure(StartFailed))
    else (Lifecycle(Some(sessionId), true), Success(()))
  }

  /** stopRecording with its truthiness guard. */
  function StopAsWritten(l: Lifecycle): (r: (Lifecycle, Result<(), JsError>))
    ensures r.1.Success? <==> Truthy(l.currentSessionId)
    ensures r.1.Success? ==> r.0 == Lifecycle(None, false)
    ensures r.1.Failure? ==> r == (l, Failure(NoActiveSession))
  {
    if !Truthy(l.currentSessionId) then (l, Failure(NoActiveSession))
    else (Lifecycle(None, false), Success(()))
  }

  /**
   * With the guards as written, a session started under the empty id cannot
   * be stopped, and no other session can be started after it: the native
   * monitor keeps recording.
   */
  lemma EmptySessionIdIsStuck(otherId: string)
    ensures var (started, r) := StartAsWritten(Lifecycle(None, false), "", true);
      && r.Success? && started.nativeRecording
      && StopAsWritten(started) == (started, Failure(NoActiveSession))
      && StartAsWritten(started, otherId, true) == (started, Failure(StartFailed))
  {
  }

  // ---------------------------------------------------------------- the session guard as intended

  const Idle := Lifecycle(None, false)

  /** startRecording with the guard asking whether a session is held at all. */
  function Start(l: Lifecycle, sessionId: string, tapsCreated: bool): (r: (Lifecycle, Result<(), JsError>))
    ensures l.currentSessionId.Some? ==> r == (l, Failure(AlreadyInProgress))
    ensures r.1.Success? <==> l.currentSessionId.None? && !l.nativeRecording && tapsCreated
    ensures r.1.Success? ==> r.0 == Lifecycle(Some(sessionId), true)
    ensures l.currentSessionId.None? && r.1.Failure? ==> r == (l, Failure(StartFailed))
  {
    if l.currentSessionId.Some? then (l, Failure(AlreadyInProgress))
    else if l.nativeRecording || !tapsCreated then (l, Failure(StartFailed))
    else (Lifecycle(Some(sessionId), true), Success(()))
  }

  /** stopRecording with the guard asking whether a session is held at all. */
  function Stop(l: Lifecycle): (r: (Lifecycle, Result<(), JsError>))
    ensures r.1.Success? <==> l.currentSessionId.Some?
    ensures r.1.Success? ==> r.0 == Idle
    ensures r.1.Failure? ==> r == (l, Failure(NoActiveSession))
  {
    if l.currentSessionId.None? then (l, Failure(NoActiveSession))
    else (Idle, Success(()))
  }

  /** With the intended guards every session that starts can be stopped, whatever its id, and the recorder is idle again. */
  lemma StartThenStopIsIdle(sessionId: string)
    ensures var (started, r) := Start(Idle, sessionId, true);
      && r.Success? && started.nativeRecording
      && Stop(started) == (Idle, Success(()))
      && Start(Stop(started).0, sessionId, true) == (started, Success(()))
  {
  }

  /** The written and the intended guards differ only when the session id held is the empty string. */
  lemma GuardsAgreeOffEmptyId(l: Lifecycle, sessionId: string, tapsCreated: bool)
    requires l.currentSessionId != Some("")
    ensures StartAsWritten(l, sessionId, tapsCreated) == Start(l, sessionId, tapsCreated)
    ensures StopAsWritten(l) == Stop(l)
  {
  }

  // ---------------------------------------------------------------- the recorder

  class MacRecorder {
    /** The native provider; it owns the event monitor that fills its buffer. */
    const native: AXRecorder
    var currentSessionId: Option<string>
    /** Whether the step-polling interval is set. */
    var polling: bool
    var lastStepCount: nat
    /** Everything emitted so far, oldest first. */
    var notifications: seq<Notification>
    /** The steps polled during the current session, oldest first. */
    ghost var polled: seq<RecordedStep>
    /** Where the current session's `stepRecorded` notifications begin: just after its `recordingStarted`. */
    ghost var announcedFrom: nat
    /** Every start, stop, read and clear on the provider, every change to the polling timer and every emission, oldest first. */
    ghost var effects: seq<Effect>

    /**
     * Valid, and every step polled in this session has been announced, in
     * order and exactly once, by the notifications since `recordingStarted`.
     */
    ghost predicate Valid()
      reads this, native, native.monitor
    {
      && Consistent()
      && (currentSessionId.Some? ==>
            announcedFrom <= |notifications| && notifications[announcedFrom..] == Announce(polled))
    }

    /**
     * A session is held exactly while the native monitor records and the
     * polling timer runs; the steps polled so far are the buffer's first
     * `lastStepCount` steps; every buffered step carries the session id; and
     * with no session the buffer is empty.
     */
    ghost predicate Consistent()
      reads this`currentSessionId, this`polling, this`lastStepCount, this`polled, native, native.monitor
    {
      && native.monitor.Valid()
      && native.monitor.hasStepCallback
      && (currentSessionId.Some? <==> native.monitor.isRecording)
      && (polling <==> currentSessionId.Some?)
      && lastStepCount <= |native.recordedSteps|
      && polled == ToJsAll(native.recordedSteps)[..lastStepCount]
      && (currentSessionId.Some? ==>
            && native.monitor.sessionId == currentSessionId.value
            && forall i :: 0 <= i < |native.recordedSteps| ==>
                 native.recordedSteps[i].sessionId == currentSessionId.value)
      && (currentSessionId.None? ==> native.recordedSteps == [] && lastStepCount == 0)
    }

    /** A recorder over a fresh native AXRecorder and its event monitor. */
    constructor ()
      ensures Valid()
      ensures fresh(native) && fresh(native.monitor)
      ensures currentSessionId == None && !polling && lastStepCount == 0
      ensures notifications == [] && polled == [] && effects == []
    {
      var monitor := new EventMonitor();
      native := new AXRecorder(monitor);
      currentSessionId := None;
      polling := false;
      lastStepCount := 0;
      notifications := [];
      polled := [];
      announcedFrom := 0;
      effects := [];
    }

    /**
     * startRecording(sessionId), with the intended held-session guard (the
     * guard as written tests truthiness; see StartAsWritten). `mouseTap`, `keyTap`, `mouseSource`,
     * `keySource` and `currentRunLoop` are what the operating system returns
     * to the native layer when it installs its event taps.
     */
    method StartRecording(sessionId: string, mouseTap: Option<Handle>, keyTap: Option<Handle>,
                          mouseSource: Option<Handle>, keySource: Option<Handle>, currentRunLoop: Handle)
      returns (r: Result<(), JsError>)
      requires Valid()
      modifies this, native.monitor
      ensures Valid()
      ensures (Lifecycle(currentSessionId, native.monitor.isRecording), r)
           == Start(Lifecycle(old(currentSessionId), old(native.monitor.isRecording)), sessionId, mouseTap.Some? && keyTap.Some?)
      ensures lastStepCount == old(lastStepCount) && polled == old(polled)
      // a session is held: refused before the provider is called, and nothing changes
      ensures old(currentSessionId).Some? ==>
        && r == Failure(AlreadyInProgress)
        && unchanged(this) && unchanged(native.monitor)
      // the native start fails: refused, still no session, nothing emitted
      ensures old(currentSessionId).None? && (mouseTap.None? || keyTap.None?) ==>
        && r == Failure(StartFailed)
        && currentSessionId.None? && !polling
        && notifications == old(notifications)
        && effects == old(effects) + [NativeStart(sessionId)]
      // the native start succeeds: the session is held, polling runs, and it is announced
      ensures old(currentSessionId).None? && mouseTap.Some? && keyTap.Some? ==>
        && r == Success(())
        && currentSessionId == Some(sessionId) && polling
        && notifications == old(notifications) + [RecordingStarted(sessionId)]
        && announcedFrom == |notifications|
        && effects == old(effects) + [NativeStart(sessionId), PollingStarted, Emitted(RecordingStarted(sessionId))]
    {
      if currentSessionId.Some? {
        return Failure(AlreadyInProgress);
      }
      effects := effects + [NativeStart(sessionId)];
      var started := native.StartRecording([JsString(sessionId)], mouseTap, keyTap, mouseSource, keySource, currentRunLoop);
      if !started.value {
        return Failure(StartFailed);
      }
      currentSessionId := Some(sessionId);
      polling := true;
      effects := effects + [PollingStarted];
      notifications := notifications + [RecordingStarted(sessionId)];
      effects := effects + [Emitted(RecordingStarted(sessionId))];
      announcedFrom := |notifications|;
      return Success(());
    }

    /**
     * stopRecording, with the intended held-session guard (the guard as
     * written tests truthiness; see StopAsWritten): stops polling before anything else, stops the native
     * monitor, reads the whole buffer, forgets the session, announces the
     * stop and clears the buffer; it returns the buffer as read.
     */
    method StopRecording() returns (r: Result<seq<RecordedStep>, JsError>)
      requires Valid()
      modifies this, native, native.monitor
      ensures Valid()
      ensures var (after, outcome) := Stop(Lifecycle(old(currentSessionId), old(native.monitor.isRecording)));
        && Lifecycle(currentSessionId, native.monitor.isRecording) == after
        && (r.Failure? <==> outcome.Failure?)
        && (r.Failure? ==> r.error == outcome.error)
      // no session: refused, and nothing changes
      ensures old(currentSessionId).None? ==>
        && r == Failure(NoActiveSession)
        && unchanged(this) && unchanged(native) && unchanged(native.monitor)
      ensures old(currentSessionId).Some? ==>
        && r == Success(ToJsAll(old(native.recordedSteps)))
        // the steps already announced come first, as they were announced
        && old(polled) <= r.value
        // every returned step belongs to the session being stopped
        && (forall i :: 0 <= i < |r.value| ==> r.value[i].sessionId == old(currentSessionId).value)
        && currentSessionId.None? && lastStepCount == 0 && !polling
        && native.recordedSteps == [] && !native.monitor.isRecording
        && notifications == old(notifications) + [RecordingStopped]
        && effects == old(effects) + [PollingStopped, NativeStop, NativeRead, Emitted(RecordingStopped), NativeClear]
    {
      if currentSessionId.None? {
        return Failure(NoActiveSession);
      }
      ghost var session := currentSessionId.value;
      polling := false;
      effects := effects + [PollingStopped];
      var _ := native.StopRecording();
      effects := effects + [NativeStop];
      var finalSteps := native.GetRecordedSteps();
      effects := effects + [NativeRead];
      ToJsAllKeepsSession(native.recordedSteps, session);
      currentSessionId := None;
      lastStepCount := 0;
      notifications := notifications + [RecordingStopped];
      effects := effects + [Emitted(RecordingStopped)];
      var _ := native.ClearSteps();
      effects := effects + [NativeClear];
      polled := [];
      return Success(finalSteps);
    }

    method IsRecording() returns (active: bool)
      requires Valid()
      ensures active == native.monitor.isRecording
      ensures active <==> currentSessionId.Some?
    {
      active := native.IsRecording();
    }

    method GetCurrentSessionId() returns (id: Option<string>)
      ensures id == currentSessionId
    {
      id := currentSessionId;
    }

    /**
     * collectNewSteps, private to the recorder and called only by Tick: the
     * steps the buffer gained since the last poll; the cursor moves to its
     * end. The new steps are polled but not yet announced, so Valid holds
     * again only once the caller has announced them.
     */
    method CollectNewSteps() returns (newSteps: seq<RecordedStep>)
      requires Valid()
      modifies this
      ensures Consistent()
      ensures currentSessionId.Some? ==>
        announcedFrom <= |notifications| && notifications[announcedFrom..] + Announce(newSteps) == Announce(polled)
      ensures newSteps == SliceFrom(ToJsAll(native.recordedSteps), old(lastStepCount))
      ensures lastStepCount == |native.recordedSteps|
      ensures polled == old(polled) + newSteps == ToJsAll(native.recordedSteps)
      ensures currentSessionId == old(currentSessionId) && polling == old(polling) && announcedFrom == old(announcedFrom)
      ensures notifications == old(notifications) && effects == old(effects) + [NativeRead]
    {
      var allSteps := native.GetRecordedSteps();
      effects := effects + [NativeRead];
      newSteps := SliceFrom(allSteps, lastStepCount);
      lastStepCount := |allSteps|;
      AnnounceAppend(polled, newSteps);
      polled := polled + newSteps;
    }

    /** One firing of the polling interval: collect the new steps and announce each, in order. */
    method Tick()
      requires Valid()
      modifies this
      ensures Valid()
      ensures !old(polling) ==> unchanged(this)
      ensures old(polling) ==>
        && notifications == old(notifications) + Announce(SliceFrom(ToJsAll(native.recordedSteps), old(lastStepCount)))
        && effects == old(effects) + [NativeRead] + Emits(Announce(SliceFrom(ToJsAll(native.recordedSteps), old(lastStepCount))))
        && polled == ToJsAll(native.recordedSteps)
        && currentSessionId == old(currentSessionId) && polling && announcedFrom == old(announcedFrom)
        // every step in the buffer has now been announced, in order and exactly once
        && notifications[announcedFrom..] == Announce(ToJsAll(native.recordedSteps))
    {
      if !polling {
        return;
      }
      var newSteps := CollectNewSteps();
      ghost var before := notifications;
      EmitEach(newSteps);
      assert notifications[announcedFrom..] == before[announcedFrom..] + Announce(newSteps);
    }

    /** `newSteps.forEach(step => this.emit('stepRecorded', step))`: one emission per step, in order. */
    method EmitEach(newSteps: seq<RecordedStep>)
      modifies this`notifications, this`effects
      ensures notifications == old(notifications) + Announce(newSteps)
      ensures effects == old(effects) + Emits(Announce(newSteps))
    {
      for i := 0 to |newSteps|
        invariant notifications == old(notifications) + Announce(newSteps[..i])
        invariant effects == old(effects) + Emits(Announce(newSteps[..i]))
      {
        assert newSteps[..i + 1] == newSteps[..i] + [newSteps[i]];
        AnnounceAppend(newSteps[..i], [newSteps[i]]);
        EmitsAppend(Announce(newSteps[..i]), [StepRecorded(newSteps[i])]);
        notifications := notifications + [StepRecorded(newSteps[i])];
        effects := effects + [Emitted(StepRecorded(newSteps[i]))];
      }
      assert newSteps[..|newSteps|] == newSteps;
    }

    /** A mouse event reaching the native event tap while this recorder exists. */
    method MouseEvent(t: EventType, location: Point, element: Option<ElementView>, app: ApplicationInfo, now: int)
      returns (recorded: Option<NativeStep>)
      requires Valid()
      modifies native
      ensures Valid()
      ensures recorded.Some? <==> currentSessionId.Some? && MouseAction(t).Some?
      ensures recorded.Some? ==> RecordsMouseEvent(recorded.value, currentSessionId.value, t, location, element, app, now)
      ensures native.recordedSteps == old(native.recordedSteps) + (if recorded.Some? then [recorded.value] else [])
    {
      recorded := native.OnMouseEvent(t, location, element, app, now);
      ToJsAllPrefix(old(native.recordedSteps), native.recordedSteps);
    }

    /** A key event reaching the native event tap while this recorder exists. */
    method KeyEvent(t: EventType, flags: bv64, typed: string, focused: Option<ElementView>, app: ApplicationInfo, now: int)
      returns (recorded: Option<NativeStep>)
      requires Valid()
      modifies native
      ensures Valid()
      ensures recorded.Some? <==> currentSessionId.Some? && t.KeyDown?
      ensures recorded.Some? ==> RecordsKeyEvent(recorded.value, currentSessionId.value, t, flags, typed, focused, app, now)
      ensures native.recordedSteps == old(native.recordedSteps) + (if recorded.Some? then [recorded.value] else [])
    {
      recorded := native.OnKeyEvent(t, flags, typed, focused, app, now);
      ToJsAllPrefix(old(native.recordedSteps), native.recordedSteps);
    }
  }

  /** Converting a queue keeps every step's session id. */
  lemma ToJsAllKeepsSession(q: seq<NativeStep>, session: string)
    requires forall i :: 0 <= i < |q| ==> q[i].sessionId == session
    ensures forall i :: 0 <= i < |q| ==> ToJsAll(q)[i].sessionId == session
  {
  }

  /** Converting a longer buffer keeps the conversion of its prefix as a prefix. */
  lemma ToJsAllPrefix(q: seq<NativeStep>, longer: seq<NativeStep>)
    requires q <= longer
    ensures ToJsAll(q) <= ToJsAll(longer)
  {
  }
}
