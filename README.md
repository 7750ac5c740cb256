# Recording engine of recorder-mac, in Dafny

This project models the macOS recording engine of the automator desktop app.
The engine has four layers:

- **Event monitor.** An on/off flag guards two CoreGraphics event taps. Its
  handlers turn mouse and key events into recorded steps. Each step carries
  the session id, the action, the button, the typed text, the decoded
  modifier keys and the accessibility description of the target element.
- **Accessibility reading.** This layer reads the target element's string
  attributes and its frame, with their empty fallbacks. It also builds the
  root-first ancestry path of the element.
- **Native addon (`AXRecorder`).** It keeps a FIFO queue of captured steps
  that the monitor's callback fills. JavaScript sees the queue through
  `getRecordedSteps`; `button` and `text` are present there only when they
  are non-empty.
- **`MacRecorder` (TypeScript).** It holds the session lifecycle. It polls
  the native buffer with a cursor and announces the new steps. It hands the
  whole buffer back on stop. It also converts a recording into a Flow
  document: each step gets a selector, and consecutive typing into one
  element is merged into a single `type` step.

Each source file has its own module:

| module | file | contents |
|---|---|---|
| `AxElement` | `ax_element.dfy` | attribute fallbacks, `GetAncestryPath` |
| `Events` | `event_monitor.dfy` | class `EventMonitor`, event classification, modifier decoding |
| `AxRecorder` | `ax_recorder.dfy` | class `AXRecorder`, the optional-field rule |
| `FlowSynthesis` | `flow_synthesis.dfy` | `GenerateSelector`, `ConvertToFlow` and their properties |
| `Recorder` | `recorder.dfy` | class `MacRecorder`: lifecycle, polling, notifications |

`Types` (`types.dfy`) and `Wrappers` (`wrappers.dfy`) hold the data model, `Option` and `Result`.

### How the model is built

**Inputs.** Everything the operating system answers is a parameter. That
covers the tap and run-loop handles, the event type, the event flags, the
typed characters, the element under the mouse cursor, the front application and
the clock.

**Polling.** One firing of the 100 ms polling interval is the method
`MacRecorder.Tick`.

**Notifications.** Whatever the recorder emits is appended to the
`notifications` log. The ghost `effects` log records, in order, every start,
stop, read and clear on the native provider, every change to the polling
timer and every emission. Queries that change nothing, `isRecording` among
them, are not logged.

**Well-formed element views.** An `ElementView` carries the element's
attributes and its parent chain, element first. `Events.WellFormedView` states
that the chain is non-empty and starts with the element's own attributes. The
handlers accept any view; `Events.AncestryEndsWithElement` states what a
well-formed view adds.

**`ConvertToFlow`.** The method keeps the source's loop with its
`currentText` and `lastTarget` accumulators. It is proved equal to
`Synthesize`, an independent reference definition that works on maximal runs
of same-selector typing. The properties of the merge are proved about
`Synthesize`.

**Where the source contradicts its own test.** The test at
`packages/recorder-mac/src/__tests__/recorder.test.ts:248-276` expects the
position selector for a button that has a role but no title or identifier.
The code at `packages/recorder-mac/src/recorder.ts:184-199` produces
`[role="AXButton"]` for that input, since the position fallback applies only
when the role is empty too. The model follows the code; see
`FlowSynthesis.RoleOnlyScenario`.

## Model

| member | source | states |
|---|---|---|
| AxElement.StringAttribute | packages/recorder-mac/src/native/ax_element.cpp:13-45 | the string value when there is an element and the lookup gives a string; "" when there is no element, the lookup fails, there is no value or the value is not a string |
| AxElement.ElementFrame | packages/recorder-mac/src/native/ax_element.cpp:47-75 | the element's origin and size when both position and size were read, the zero frame otherwise |
| AxElement.PathComponent | packages/recorder-mac/src/native/ax_element.cpp:90-96 | a component is the role followed by `[title="T"]` when the title is non-empty, then `[id="I"]` when the identifier is non-empty; it is the bare role exactly when both are empty; the title part comes before the id part |
| AxElement.GetAncestryPath | packages/recorder-mac/src/native/ax_element.cpp:77-112 | one component per element on the parent chain, in root-first order (the element itself last); no element gives the empty path |
| Events.MouseAction | packages/recorder-mac/src/native/event_monitor.cpp:183-210 | left and right presses are clicks, left and right drags are drags, and each carries its button; releases, moves and any other type give no step |
| Events.DecodeModifiers | packages/recorder-mac/src/native/event_monitor.cpp:266-269 | the decoded modifiers are exactly the shift, control, option and command bits of the flags: encoding them back gives the flags masked to those four bits |
| Events.DecodeEncode | packages/recorder-mac/src/native/event_monitor.cpp:266-269 | decoding the flags built from a set of modifiers gives back exactly those modifiers |
| Events.DecodeIgnoresOtherBits | packages/recorder-mac/src/native/event_monitor.cpp:266-269 | flag bits outside the shift, control, option and command masks do not change the decoded modifiers |
| Events.ModifierBitsIndependent | packages/recorder-mac/src/native/event_monitor.cpp:266-269 | toggling one modifier's bit flips that modifier and leaves the other three alone |
| Events.DescribeTarget | packages/recorder-mac/src/native/event_monitor.cpp:159-179 | the descriptor holds the element's four string attributes, its frame and its ancestry path, or is empty when no element was found |
| Events.AncestryEndsWithElement | packages/recorder-mac/src/native/ax_element.cpp:85-98 | for a well-formed view, the ancestry path is non-empty and its last component is the path component of the element's own role, title and identifier |
| Events.EventMonitor.constructor | packages/recorder-mac/src/native/event_monitor.cpp:9-15 | a new monitor is stopped, with an empty session id, no callback and no taps |
| Events.EventMonitor.StartRecording | packages/recorder-mac/src/native/event_monitor.cpp:28-92 | fails and changes nothing, not even the session id, while recording; stores the session id and fails, still stopped, when a tap is missing; otherwise records with every handle held; succeeds exactly when it was stopped and both taps exist |
| Events.EventMonitor.StopRecording | packages/recorder-mac/src/native/event_monitor.cpp:94-126 | a no-op while stopped; otherwise stops and releases both taps, both run-loop sources and the run loop |
| Events.EventMonitor.SetStepCallback | packages/recorder-mac/src/native/event_monitor.cpp:128-131 | sets whether a callback is present and changes no other field |
| Events.EventMonitor.HandleMouseEvent | packages/recorder-mac/src/native/event_monitor.cpp:143-219 | a step only while recording with a callback set and for a classified event type; the step carries the recorded session id, the classified action and button, no text, no modifiers, the location, the time, the front application and the described element |
| Events.EventMonitor.HandleKeyEvent | packages/recorder-mac/src/native/event_monitor.cpp:221-298 | a step only while recording with a callback set and for a key press; it is a `type` step with no button, the typed characters, the decoded modifiers, the session id, the time, the front application and the focused element |
| AxRecorder.OptionalString | packages/recorder-mac/src/native/ax_recorder.cpp:126-132 | the property is present exactly when the native string is non-empty, and then holds that string |
| AxRecorder.StepToJS | packages/recorder-mac/src/native/ax_recorder.cpp:119-172 | `button` and `text` are present exactly when non-empty; the ancestry is copied with the same length and order |
| AxRecorder.StepToJSIsLossless | packages/recorder-mac/src/native/ax_recorder.cpp:119-172 | the native step can be read back from its JavaScript form |
| AxRecorder.StepToJSReachesEveryStep | packages/recorder-mac/src/native/ax_recorder.cpp:119-172 | every JavaScript step without an empty-string `button` or `text` is the conversion of some native step |
| AxRecorder.ToJsAll | packages/recorder-mac/src/native/ax_recorder.cpp:87-97 | the snapshot has one converted entry per queued step, in queue order |
| AxRecorder.ToJsAllAppend | packages/recorder-mac/src/native/ax_recorder.cpp:112-117 | pushing a step onto the queue appends its conversion to the snapshot and leaves the earlier entries alone |
| AxRecorder.AXRecorder.constructor | packages/recorder-mac/src/native/ax_recorder.cpp:44-51 | a new addon object has an empty queue, registers its callback with the monitor and changes no other monitor field |
| AxRecorder.AXRecorder.StartRecording | packages/recorder-mac/src/native/ax_recorder.cpp:53-65 | a missing or non-string argument throws "Session ID string expected" and leaves the monitor alone; otherwise it answers what the monitor's start answered |
| AxRecorder.AXRecorder.StopRecording | packages/recorder-mac/src/native/ax_recorder.cpp:67-72 | always answers true, the monitor is stopped afterwards and the queue is untouched |
| AxRecorder.AXRecorder.IsRecording | packages/recorder-mac/src/native/ax_recorder.cpp:74-78 | answers the monitor's recording flag |
| AxRecorder.AXRecorder.GetRecordedSteps | packages/recorder-mac/src/native/ax_recorder.cpp:80-98 | every queued step converted, front first, with the queue unchanged |
| AxRecorder.AXRecorder.ClearSteps | packages/recorder-mac/src/native/ax_recorder.cpp:100-110 | answers true and leaves the queue empty |
| AxRecorder.AXRecorder.OnStepRecorded | packages/recorder-mac/src/native/ax_recorder.cpp:112-117 | the step is pushed at the back of the queue |
| AxRecorder.AXRecorder.OnMouseEvent | packages/recorder-mac/src/native/ax_recorder.cpp:44-51 | a mouse event that the monitor turns into a step pushes exactly that step onto the queue, and no other event changes the queue; the pushed step carries the monitor's session id, the classified action and button, no text, no modifiers, the location, the time, the front application and the described element |
| AxRecorder.AXRecorder.OnKeyEvent | packages/recorder-mac/src/native/ax_recorder.cpp:44-51 | a key press while recording pushes exactly one step onto the queue, and no other key event changes the queue; the pushed step is a `type` step with the monitor's session id, no button, the typed characters, the decoded modifiers, the time, the front application and the focused element |
| FlowSynthesis.NatToString | packages/recorder-mac/src/recorder.ts:197 | the decimal rendering of a non-negative number inside a template string is never empty and holds only digits |
| FlowSynthesis.IntToString | packages/recorder-mac/src/recorder.ts:197 | the decimal rendering of a coordinate is non-empty, starts with `-` exactly for a negative number, and has only digits after that |
| FlowSynthesis.NatToStringValue | packages/recorder-mac/src/recorder.ts:197 | the digits rendered for a natural number, read back in base ten, give that number |
| FlowSynthesis.IntToStringValue | packages/recorder-mac/src/recorder.ts:197 | the rendering of an integer, read back with its sign, gives that integer |
| FlowSynthesis.IntToStringInjective | packages/recorder-mac/src/recorder.ts:197 | two integers render the same exactly when they are equal |
| FlowSynthesis.PositionFragmentInjective | packages/recorder-mac/src/recorder.ts:195-199 | the position fragment encodes the frame origin: two fragments are equal exactly when both their x and their y are |
| FlowSynthesis.GenerateSelector | packages/recorder-mac/src/recorder.ts:180-202 | the selector is never empty |
| FlowSynthesis.SelectorPrecedence | packages/recorder-mac/src/recorder.ts:184-201 | the selector is the role fragment when the role is non-empty, then the id fragment when the identifier is non-empty, else the title fragment when the title is non-empty, and the position fragment only when nothing else was produced |
| FlowSynthesis.PositionOnlyForAnonymousElements | packages/recorder-mac/src/recorder.ts:195-199 | the position selector is used exactly when role, identifier and title are all empty |
| FlowSynthesis.TitleIgnoredWhenIdentified | packages/recorder-mac/src/recorder.ts:188-192 | with a non-empty identifier, the title does not affect the selector |
| FlowSynthesis.SelectorIsStable | packages/recorder-mac/src/recorder.ts:180-202 | the selector depends only on role, identifier, title and the frame origin |
| FlowSynthesis.RunLength | packages/recorder-mac/src/recorder.ts:122-126 | the length of the maximal prefix of `type` steps into one selector |
| FlowSynthesis.Absorb | packages/recorder-mac/src/recorder.ts:120-156 | one step of the loop: typing into the pending target extends the text; typing elsewhere flushes non-empty pending text and opens a new group; any other step flushes non-empty pending text, clears the target only then, and adds one click for a click and nothing for a drag; what is emitted plus what is pending never changes the final flow |
| FlowSynthesis.ConvertToFlow | packages/recorder-mac/src/recorder.ts:108-174 | version "0.1", the given name (default "Recorded Flow"), no variables, steps equal to the reference `Synthesize` of the steps' keys (so, by `SynthesizeLength`, never more steps than input steps), every click with a non-empty selector and every type step with a non-empty selector and text |
| FlowSynthesis.SynthesizeKeepsText | packages/recorder-mac/src/recorder.ts:122-166 | the emitted type steps' texts, in order, are the in-order concatenation of all typed texts, an absent text counting as "" |
| FlowSynthesis.SynthesizeKeepsClicks | packages/recorder-mac/src/recorder.ts:150-155 | the emitted clicks are exactly the input clicks' selectors, in order |
| FlowSynthesis.SynthesizeLength | packages/recorder-mac/src/recorder.ts:119-166 | the flow never has more steps than the recording |
| FlowSynthesis.SynthesizeGivesProperSteps | packages/recorder-mac/src/recorder.ts:128-166 | with non-empty selectors, no empty-text type step is ever emitted, and every step has a non-empty selector |
| FlowSynthesis.KeysHaveSelectors | packages/recorder-mac/src/recorder.ts:120 | every step's key carries a non-empty selector |
| FlowSynthesis.SameTargetTypingMerges | packages/recorder-mac/src/recorder.ts:122-126 | a run of `type` steps into one selector becomes a single type step holding the concatenated text, or nothing when that text is empty |
| FlowSynthesis.SynthesizeSplitsAtOtherStep | packages/recorder-mac/src/recorder.ts:138-156 | a non-`type` step ends every typing group: the flow of `a + [c] + b` is the flow of `a`, then `c`'s own step, then the flow of `b` |
| FlowSynthesis.OtherStepFlushes | packages/recorder-mac/src/recorder.ts:138-156 | a non-`type` step emits the pending text when there is some, then its own step |
| FlowSynthesis.NewTargetFlushes | packages/recorder-mac/src/recorder.ts:126-137 | typing into a new target emits the pending text when there is some and opens a group for the new target |
| FlowSynthesis.PendingAtEnd | packages/recorder-mac/src/recorder.ts:159-166 | at the end of the input only the pending group remains, emitted when its text is non-empty |
| FlowSynthesis.ClickThenTypeFlow | packages/recorder-mac/src/__tests__/recorder.test.ts:123-188 | a click followed by typing gives one click step and one type step |
| FlowSynthesis.TypeTwiceFlow | packages/recorder-mac/src/__tests__/recorder.test.ts:190-246 | two typings into the same field merge into one type step holding both texts |
| FlowSynthesis.ClickThenTypeScenario | packages/recorder-mac/src/__tests__/recorder.test.ts:123-188 | a click on a role-and-id button then typing into a role-and-id field give their two selectors in order |
| FlowSynthesis.GroupedTypingScenario | packages/recorder-mac/src/__tests__/recorder.test.ts:190-246 | "Hello" and " World" typed into one field give the single type step "Hello World" |
| FlowSynthesis.RoleOnlyScenario | packages/recorder-mac/src/recorder.ts:184-199 | a button with a role but no identifier or title gets `[role="AXButton"]`, not the position selector |
| FlowSynthesis.AnonymousScenario | packages/recorder-mac/src/recorder.ts:195-199 | an element with no role, identifier or title at (300, 400) gets `[ax-position="300,400"]` |
| FlowSynthesis.AnonymousSelectorsDistinguishPositions | packages/recorder-mac/src/recorder.ts:184-199 | two elements with no role, identifier or title get the same selector exactly when their frames start at the same point, so typing into anonymous elements at different positions is never merged |
| FlowSynthesis.PositionOfTestPoint | packages/recorder-mac/src/recorder.ts:195-199 | the position fragment of (300, 400) is `[ax-position="300,400"]` |
| Recorder.Emits | packages/recorder-mac/src/recorder.ts:210-212 | the effects of emitting a batch of notifications: one emission per notification, in order; the per-step loop of `MacRecorder.EmitEach` is proved to log exactly this |
| Recorder.SliceFrom | packages/recorder-mac/src/recorder.ts:231 | `slice(start)` gives the steps from the cursor on, and nothing when the cursor is past the end |
| Recorder.Announce | packages/recorder-mac/src/recorder.ts:210-212 | one `stepRecorded` notification per new step, in order |
| Recorder.BatchesAreExact | packages/recorder-mac/src/recorder.ts:229-234 | while the buffer only grows, what was seen plus every batch polled afterwards is the buffer as last read: no step repeated, none skipped |
| Recorder.StartAsWritten | packages/recorder-mac/src/recorder.ts:47-62 | with a truthy session id it fails with "Recording is already in progress" and changes nothing; it succeeds exactly when the id is falsy, the native side is not recording and the taps could be made, and then holds the given id with the native side recording; any other failure is the permissions message with nothing changed |
| Recorder.StopAsWritten | packages/recorder-mac/src/recorder.ts:68-87 | succeeds exactly when the session id is truthy, and then leaves no session and the native side stopped; otherwise fails with "No recording session is active" and changes nothing |
| Recorder.Start | packages/recorder-mac/src/recorder.ts:47-62 | as `StartAsWritten`, but the guard asks whether any session is held, the empty id included |
| Recorder.Stop | packages/recorder-mac/src/recorder.ts:68-87 | as `StopAsWritten`, but it succeeds exactly when any session is held, the empty id included |
| Recorder.EmptySessionIdIsStuck | packages/recorder-mac/src/recorder.ts:48-71 | with the truthiness guards as written, a session started with the id "" cannot be stopped, and no new session can start after it |
| Recorder.GuardsAgreeOffEmptyId | packages/recorder-mac/src/recorder.ts:48-71 | the written and the intended guards behave the same unless the held session id is "" |
| Recorder.StartThenStopIsIdle | packages/recorder-mac/src/recorder.ts:47-87 | with the intended guards, every session that starts can be stopped, whatever its id, and a new one can start again |
| Recorder.MacRecorder.constructor | packages/recorder-mac/src/recorder.ts:21-40 | a new recorder holds no session, does not poll and has emitted nothing |
| Recorder.MacRecorder.StartRecording | packages/recorder-mac/src/recorder.ts:47-62 | with a session held it fails with "Recording is already in progress" before calling the provider and changes nothing; when the native start fails it fails with the permissions message and no session is held; otherwise the session is the given id, polling is on and `recordingStarted(id)` is emitted; the effects are the native start, then the timer start, then the emission |
| Recorder.MacRecorder.StopRecording | packages/recorder-mac/src/recorder.ts:68-87 | with no session it fails with "No recording session is active" and changes nothing; otherwise it stops polling, stops the provider, reads the whole buffer, emits `recordingStopped` and clears the buffer, in that order; it returns the buffer as read, which starts with every step already polled, and so announced, and holds only steps of that session; afterwards no session is held, the cursor is 0 and the buffer is empty |
| Recorder.MacRecorder.IsRecording | packages/recorder-mac/src/recorder.ts:92-94 | answers the native recording flag, which is on exactly while a session is held |
| Recorder.MacRecorder.GetCurrentSessionId | packages/recorder-mac/src/recorder.ts:99-101 | answers the session id held, if any |
| Recorder.MacRecorder.CollectNewSteps | packages/recorder-mac/src/recorder.ts:229-234 | private in the source and called only by `Tick`: reads the buffer once, answers its steps from the cursor on and moves the cursor to the buffer's end; the steps polled are then exactly the buffer, and the notifications since `recordingStarted` followed by the announcement of the new steps are exactly the announcement of every polled step, so the recorder is valid again only once its caller has announced them |
| Recorder.MacRecorder.EmitEach | packages/recorder-mac/src/recorder.ts:210-212 | one `stepRecorded` notification and one emission effect per new step, appended in order, and nothing else changes |
| Recorder.MacRecorder.Tick | packages/recorder-mac/src/recorder.ts:207-214 | does nothing unless polling; otherwise reads the buffer once, then announces every new step in order, and logs exactly those effects; afterwards the notifications since `recordingStarted` are one `stepRecorded` per buffered step, in buffer order: every buffered step has been announced exactly once |
| Recorder.MacRecorder.MouseEvent | packages/recorder-mac/src/native/event_monitor.cpp:143-219 | a classified mouse event during a session appends exactly the recorded step to the buffer, and any other mouse event leaves it alone; the step carries the held session id, the classified action and button, no text, no modifiers, the location, the time, the front application and the described element; the recorder's invariant is kept |
| Recorder.MacRecorder.KeyEvent | packages/recorder-mac/src/native/event_monitor.cpp:221-298 | a key press during a session appends exactly the recorded step to the buffer, and any other key event leaves it alone; the step is a `type` step with the held session id, no button, the typed characters, the decoded modifiers, the time, the front application and the focused element; the recorder's invariant is kept |
| Recorder.ToJsAllKeepsSession | packages/recorder-mac/src/native/ax_recorder.cpp:87-97 | converting a queue whose steps all carry one session id gives entries that all carry that id |
| Recorder.ToJsAllPrefix | packages/recorder-mac/src/native/ax_recorder.cpp:87-97 | converting a longer queue keeps the conversion of its prefix as a prefix |

`MacRecorder.Valid` is kept by every public method of the class. `CollectNewSteps` and `EmitEach`, the two halves of one firing of the interval, do not promise it on their own: only `Tick`, which runs them in turn, restores it. It states:

- a session is held exactly while the native monitor records and the polling timer runs;
- the steps polled so far are the buffer's first `lastStepCount` steps;
- while a session is held, the notifications since its `recordingStarted` are exactly one `stepRecorded` per polled step, in order;
- every buffered step carries the held session id;
- with no session held, the buffer is empty.

## Left out

- Timers: `setInterval`/`clearInterval` are modelled only as the `polling` flag. One firing of the interval is the method `Tick`.
- The EventEmitter: listeners and their dispatch are left out. Emitted events are the `notifications` log, and the typed `on`/`emit` wrappers are not modelled.
- Native addon loading in the `MacRecorder` constructor, and its error, are left out. The constructor builds the native objects directly.
- The asynchronous `Promise` wrappers of `startRecording`/`stopRecording` are left out. A rejected promise is a `Failure` result.
- The mutex in `ax_recorder.cpp` is left out. Every operation is modelled as sequential, and events arrive between calls.
- Every CoreGraphics, Accessibility and CoreFoundation call is left out, along with reference counting and the UTF-8 buffer conversion of typed characters. Their results are parameters: tap and run-loop handles, the event type, the flags, the typed string, the element views and the front application.
- `getElementAtPoint`, `getFocusedElement`, `getCurrentApplication` and `getStringAttributeForElement` are left out. They query the OS, and what they answer is an input.
- Wall-clock timestamps are a parameter.
- Diagnostic logging is dropped: the `std::cout`/`std::cerr` messages of packages/recorder-mac/src/native/event_monitor.cpp and packages/recorder-mac/src/native/ax_recorder.cpp change no state and are not modelled.
- Floating point: frames and locations are integers. The float-to-int casts of the handlers are not modelled.
- The frame of a step with no element is uninitialised in the native code. The model uses the zero frame there.
- `EventMonitor::getInstance` is left out. Each `MacRecorder` owns its own monitor rather than sharing a process-wide singleton.
- `toJSON` of `ax_element.cpp` and the N-API marshalling of `RecordedStepToJS` beyond its field rules are left out.
- The Flow step kinds `navigate`, `waitFor`, `openApp` and `guard` are in the data model, but `convertToFlow` never produces them.
- A listener throwing inside `emit` is not modelled.
- Key steps: `handleKeyEvent` never sets the step's `location` (packages/recorder-mac/src/native/event_monitor.cpp:233-294), so it keeps the struct's default. The model stores the point (0, 0) there, and no contract states anything about a key step's location.
- Element views: the handlers accept any `ElementView`, including one whose chain is empty or does not start with the element itself. Only `Events.AncestryEndsWithElement` assumes `WellFormedView`.
- Recorder.MacRecorder.StartRecording: the guard is the corrected one, "a session is held", not the truthiness test of packages/recorder-mac/src/recorder.ts:48. With the id "" held, the model fails with "Recording is already in progress", while the code as written calls the native start and throws the permissions message. `Recorder.StartAsWritten` models the code as written.
- Recorder.MacRecorder.StopRecording: the guard is the corrected one, "a session is held", not the truthiness test of packages/recorder-mac/src/recorder.ts:69. With the id "" held, the model stops the session, while the code as written throws "No recording session is active" and leaves the monitor recording. `Recorder.StopAsWritten` models the code as written.

## Findings

| source | as written | input that shows it | evidently intended | confidence | as-written member | corrected member |
|---|---|---|---|---|---|---|
| packages/recorder-mac/src/recorder.ts:48-71 | the lifecycle guards test the truthiness of `currentSessionId`, and `""` is falsy | `startRecording("")` succeeds natively and stores `""`; `stopRecording()` then fails with "No recording session is active" while the native monitor keeps recording, and every later `startRecording(id)` fails because the monitor is still on | a held session, whatever its id, can be stopped, so the guards test whether a session is held | not executed | Recorder.EmptySessionIdIsStuck | Recorder.MacRecorder.StartRecording, Recorder.MacRecorder.StopRecording |
