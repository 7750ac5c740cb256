/**
 * Turning a recording into a Flow (MacRecorder.convertToFlow and
 * generateSelector): one left-to-right pass that merges consecutive typing on
 * the same element and derives a selector for every step.
 */
module FlowSynthesis {
  import opened Wrappers
  import opened Types

  // ---------------------------------------------------------------- selectors

  function DigitChar(d: nat): (c: char)
    requires d < 10
    ensures '0' <= c <= '9'
  {
    "0123456789"[d]
  }

  /** The decimal digits of a natural number, as JavaScript prints it. */
  function NatToString(n: nat): (r: string)
    ensures |r| >= 1
    ensures forall k :: 0 <= k < |r| ==> '0' <= r[k] <= '9'
    decreases n
  {
    if n < 10 then [DigitChar(n)] else NatToString(n / 10) + [DigitChar(n % 10)]
  }

  /** An integer as a template literal prints it: a minus sign exactly for a negative number, then digits. */
  function IntToString(i: int): (r: string)
    ensures |r| >= 1
    ensures r[0] == '-' <==> i < 0
    ensures forall k :: 1 <= k < |r| ==> '0' <= r[k] <= '9'
  {
    if i < 0 then "-" + NatToString(-i) else NatToString(i)
  }

  predicate IsDigits(s: string) {
    forall k :: 0 <= k < |s| ==> '0' <= s[k] <= '9'
  }

  /** The number a string of decimal digits denotes, most significant digit first. */
  function DecValue(s: string): nat
    requires IsDigits(s)
  {
    if s == [] then 0 else DecValue(s[..|s| - 1]) * 10 + (s[|s| - 1] as int - '0' as int)
  }

  /** The number a rendered integer denotes: a leading minus negates the digits after it. */
  function SignedValue(s: string): int
    requires |s| >= 1
    requires s[0] == '-' ==> IsDigits(s[1..])
    requires s[0] != '-' ==> IsDigits(s)
  {
    if s[0] == '-' then -(DecValue(s[1..]) as int) else DecValue(s)
  }

  lemma DigitCharValue(d: nat)
    requires d < 10
    ensures DigitChar(d) as int - '0' as int == d
  {
  }

  /** Reading back the rendering of a natural number gives that number. */
  lemma {:induction false} NatToStringValue(n: nat)
    ensures DecValue(NatToString(n)) == n
    decreases n
  {
    var r := NatToString(n);
    if n < 10 {
      DigitCharValue(n);
      assert r[..|r| - 1] == [];
    } else {
      NatToStringValue(n / 10);
      DigitCharValue(n % 10);
      assert r[..|r| - 1] == NatToString(n / 10);
    }
  }

  /** Reading back the rendering of an integer gives that integer. */
  lemma IntToStringValue(i: int)
    ensures SignedValue(IntToString(i)) == i
  {
    var r := IntToString(i);
    if i < 0 {
      var digits := NatToString(-i);
      assert r == "-" + digits && r[1..] == digits;
      NatToStringValue(-i);
      assert SignedValue(r) == -(DecValue(digits) as int);
    } else {
      assert r == NatToString(i) && r[0] != '-';
      NatToStringValue(i);
    }
  }

  /** Different integers render differently. */
  lemma IntToStringInjective(i: int, j: int)
    ensures IntToString(i) == IntToString(j) <==> i == j
  {
    IntToStringValue(i);
    IntToStringValue(j);
  }

  function RoleFragment(role: string): string { "[role=\"" + role + "\"]" }

  function IdFragment(identifier: string): string { "[id=\"" + identifier + "\"]" }

  function TitleFragment(title: string): string { "[title=\"" + title + "\"]" }

  function PositionFragment(x: int, y: int): string {
    "[ax-position=\"" + IntToString(x) + "," + IntToString(y) + "\"]"
  }

  /** Two strings without commas, joined by a comma, can be split back apart. */
  lemma CommaSplit(a: string, b: string, c: string, e: string)
    requires ',' !in a && ',' !in c
    requires a + "," + b == c + "," + e
    ensures a == c && b == e
  {
    var s := a + "," + b;
    // |a| and |c| are both the position of the first comma
    assert forall k :: 0 <= k < |a| ==> s[k] == a[k];
    assert forall k :: 0 <= k < |c| ==> s[k] == c[k];
    assert s[|a|] == ',' && s[|c|] == ',';
    assert |a| == |c|;
    assert a == s[..|a|] && c == s[..|c|];
    assert b == s[|a| + 1..] && e == s[|c| + 1..];
  }

  /** The position fragment encodes the frame's x and y: different points give different fragments. */
  lemma PositionFragmentInjective(x: int, y: int, x': int, y': int)
    ensures PositionFragment(x, y) == PositionFragment(x', y') <==> x == x' && y == y'
  {
    if PositionFragment(x, y) == PositionFragment(x', y') {
      NoCommaInNumber(x);
      NoCommaInNumber(x');
      Unwrap("[ax-position=\"", IntToString(x), IntToString(y), IntToString(x'), IntToString(y'), "\"]");
      IntToStringInjective(x, x');
      IntToStringInjective(y, y');
    }
  }

  /** Between the same delimiters, two comma-separated pairs whose first parts have no comma are equal part by part. */
  lemma Unwrap(open: string, a: string, b: string, c: string, e: string, close: string)
    requires ',' !in a && ',' !in c
    requires open + a + "," + b + close == open + c + "," + e + close
    ensures a == c && b == e
  {
    var f := open + a + "," + b + close;
    var f' := open + c + "," + e + close;
    assert a + "," + b == f[|open|..|f| - |close|];
    assert c + "," + e == f'[|open|..|f'| - |close|];
    CommaSplit(a, b, c, e);
  }

  lemma NoCommaInNumber(i: int)
    ensures ',' !in IntToString(i)
  {
    var r := IntToString(i);
    assert forall k :: 0 <= k < |r| ==> r[k] != ',' by {
      if i < 0 {
        assert forall k :: 1 <= k < |r| ==> r[k] == NatToString(-i)[k - 1];
      }
    }
  }

  function Join(parts: seq<string>): string {
    if parts == [] then "" else parts[0] + Join(parts[1..])
  }

  lemma JoinSmall(a: string, b: string)
    ensures Join([]) == ""
    ensures Join([a]) == a
    ensures Join([a, b]) == a + b
  {
    assert [a][1..] == [];
    assert [a, b][1..] == [b];
    assert [b][1..] == [];
  }

  /**
   * generateSelector: a role fragment when the role is set, then an id
   * fragment when the identifier is set or else a title fragment when the
   * title is set; the frame position only when none of these was produced.
   * Every fragment is non-empty, so the selector never is.
   */
  function GenerateSelector(step: RecordedStep): (r: string)
    ensures r != ""
  {
    var d := step.targetDescriptor;
    var nameParts := if d.identifier != "" then [IdFragment(d.identifier)]
                     else if d.title != "" then [TitleFragment(d.title)]
                     else [];
    var parts := if d.role != "" then [RoleFragment(d.role)] + nameParts else nameParts;
    if parts == [] then
      var fallback := PositionFragment(d.frame.x, d.frame.y);
      JoinSmall(fallback, "");
      Join([fallback])
    else
      Join(parts)
  }

  /** The selector for each combination of empty and non-empty role, identifier and title. */
  lemma SelectorPrecedence(step: RecordedStep)
    ensures var d := step.targetDescriptor; var r := GenerateSelector(step);
      && (d.role != "" && d.identifier != "" ==> r == RoleFragment(d.role) + IdFragment(d.identifier))
      && (d.role != "" && d.identifier == "" && d.title != "" ==> r == RoleFragment(d.role) + TitleFragment(d.title))
      && (d.role != "" && d.identifier == "" && d.title == "" ==> r == RoleFragment(d.role))
      && (d.role == "" && d.identifier != "" ==> r == IdFragment(d.identifier))
      && (d.role == "" && d.identifier == "" && d.title != "" ==> r == TitleFragment(d.title))
      && (d.role == "" && d.identifier == "" && d.title == "" ==> r == PositionFragment(d.frame.x, d.frame.y))
  {
    var d := step.targetDescriptor;
    JoinSmall(RoleFragment(d.role), IdFragment(d.identifier));
    JoinSmall(RoleFragment(d.role), TitleFragment(d.title));
    JoinSmall(IdFragment(d.identifier), "");
    JoinSmall(TitleFragment(d.title), "");
    JoinSmall(PositionFragment(d.frame.x, d.frame.y), "");
  }

  /** The positional fallback is used exactly when role, identifier and title are all empty. */
  lemma PositionOnlyForAnonymousElements(step: RecordedStep)
    ensures var d := step.targetDescriptor;
      GenerateSelector(step) == PositionFragment(d.frame.x, d.frame.y) <==>
      d.role == "" && d.identifier == "" && d.title == ""
  {
    var d := step.targetDescriptor;
    SelectorPrecedence(step);
    var r := GenerateSelector(step);
    var p := PositionFragment(d.frame.x, d.frame.y);
    assert p[1] == 'a';
    if d.role != "" {
      assert r[1] == 'r';
    } else if d.identifier != "" {
      assert r[1] == 'i';
    } else if d.title != "" {
      assert r[1] == 't';
    }
  }

  /** A non-empty identifier takes precedence: the title then plays no part in the selector. */
  lemma TitleIgnoredWhenIdentified(step: RecordedStep, otherTitle: string)
    requires step.targetDescriptor.identifier != ""
    ensures GenerateSelector(step) ==
            GenerateSelector(step.(targetDescriptor := step.targetDescriptor.(title := otherTitle)))
  {
  }

  /**
   * The selector depends only on the role, identifier, title and frame origin,
   * so two steps with the same such fields always get the same selector.
   */
  lemma SelectorIsStable(a: RecordedStep, b: RecordedStep)
    requires a.targetDescriptor.role == b.targetDescriptor.role
    requires a.targetDescriptor.identifier == b.targetDescriptor.identifier
    requires a.targetDescriptor.title == b.targetDescriptor.title
    requires a.targetDescriptor.frame.x == b.targetDescriptor.frame.x
    requires a.targetDescriptor.frame.y == b.targetDescriptor.frame.y
    ensures GenerateSelector(a) == GenerateSelector(b)
  {
  }

  // ---------------------------------------------------------------- merging

  /** `step.text || ''`: the typed text, absent text counting as "". */
  function TextOf(step: RecordedStep): string {
    step.text.GetOr("")
  }

  /** What the conversion looks at in a step: its action, its selector and its text. */
  datatype Key = Key(action: Action, selector: string, text: string)

  function KeyOf(step: RecordedStep): Key {
    Key(step.action, GenerateSelector(step), TextOf(step))
  }

  function Keys(steps: seq<RecordedStep>): (ks: seq<Key>)
    ensures |ks| == |steps|
  {
    if steps == [] then [] else [KeyOf(steps[0])] + Keys(steps[1..])
  }

  lemma KeysFrom(steps: seq<RecordedStep>, i: nat)
    requires i < |steps|
    ensures Keys(steps[i..]) == [KeyOf(steps[i])] + Keys(steps[i + 1..])
  {
    assert steps[i..][1..] == steps[i + 1..];
  }

  /** The step types into the element the selector names. */
  predicate TypesInto(k: Key, selector: string) {
    k.action == Type && k.selector == selector
  }

  /** The length of the longest prefix of `ks` that only types into `selector`. */
  function RunLength(selector: string, ks: seq<Key>): (n: nat)
    ensures n <= |ks|
    ensures forall i :: 0 <= i < n ==> TypesInto(ks[i], selector)
    ensures n < |ks| ==> !TypesInto(ks[n], selector)
  {
    if ks != [] && TypesInto(ks[0], selector) then 1 + RunLength(selector, ks[1..]) else 0
  }

  /** The texts of the `type` steps, concatenated in order. */
  function TypedText(ks: seq<Key>): string {
    if ks == [] then ""
    else (if ks[0].action == Type then ks[0].text else "") + TypedText(ks[1..])
  }

  /** A typing group becomes one `type` step, or nothing when its text is empty. */
  function Emit(selector: string, text: string): seq<FlowStep> {
    if text == "" then [] else [TypeStep(selector, text)]
  }

  /** What a step other than `type` contributes itself: a click step for a click, nothing for a drag. */
  function OwnStep(k: Key): seq<FlowStep> {
    if k.action == Click then [ClickStep(k.selector)] else []
  }

  /**
   * The steps of the Flow for a recording, described group by group: a
   * maximal run of `type` steps into one element is one typing group, and
   * every other step ends the group before it.
   */
  function Synthesize(ks: seq<Key>): seq<FlowStep>
    decreases |ks|
  {
    if ks == [] then []
    else if ks[0].action == Type then
      var n := RunLength(ks[0].selector, ks);
      Emit(ks[0].selector, TypedText(ks[..n])) + Synthesize(ks[n..])
    else
      OwnStep(ks[0]) + Synthesize(ks[1..])
  }

  /**
   * What is still to be produced when the pass has `text` accumulated for
   * `target` and `rest` left to read: the pending group absorbs the typing
   * into `target` that follows it.
   */
  function Pending(text: string, target: Option<string>, rest: seq<Key>): seq<FlowStep> {
    match target
    case None => Synthesize(rest)
    case Some(selector) =>
      var m := RunLength(selector, rest);
      Emit(selector, text + TypedText(rest[..m])) + Synthesize(rest[m..])
  }

  lemma TypedTextCons(k: Key, rest: seq<Key>)
    ensures TypedText([k] + rest) == (if k.action == Type then k.text else "") + TypedText(rest)
  {
    assert ([k] + rest)[1..] == rest;
  }

  /** Typing into the pending target extends the pending text. */
  lemma PendingSameTarget(text: string, selector: string, k: Key, rest: seq<Key>)
    requires TypesInto(k, selector)
    ensures Pending(text, Some(selector), [k] + rest) == Pending(text + k.text, Some(selector), rest)
  {
    var all := [k] + rest;
    assert all[1..] == rest;
    var m := RunLength(selector, rest);
    assert RunLength(selector, all) == 1 + m;
    assert all[..1 + m] == [k] + rest[..m];
    assert all[1 + m..] == rest[m..];
    TypedTextCons(k, rest[..m]);
    var t := TypedText(rest[..m]);
    assert text + (k.text + t) == (text + k.text) + t;
  }

  /** Keeping a target with no text pending changes nothing. */
  lemma PendingEmptyText(selector: string, rest: seq<Key>)
    ensures Pending("", Some(selector), rest) == Synthesize(rest)
  {
    var m := RunLength(selector, rest);
    var t := TypedText(rest[..m]);
    assert "" + t == t;
    if m == 0 {
      assert rest[0..] == rest;
      assert rest[..0] == [];
      assert Emit(selector, "" + t) == [];
    } else {
      assert TypesInto(rest[0], selector);
      assert Synthesize(rest) == Emit(selector, t) + Synthesize(rest[m..]);
    }
  }

  /** A `type` step starts a group holding its own text. */
  lemma SynthesizeTypeHead(k: Key, rest: seq<Key>)
    requires k.action == Type
    ensures Synthesize([k] + rest) == Pending(k.text, Some(k.selector), rest)
  {
    PendingEmptyText(k.selector, [k] + rest);
    PendingSameTarget("", k.selector, k, rest);
    assert "" + k.text == k.text;
  }

  /** A step that does not type into the pending target ends the pending group. */
  lemma PendingInterrupted(text: string, selector: string, k: Key, rest: seq<Key>)
    requires !TypesInto(k, selector)
    ensures Pending(text, Some(selector), [k] + rest) == Emit(selector, text) + Synthesize([k] + rest)
  {
    var all := [k] + rest;
    assert all[0] == k;
    assert RunLength(selector, all) == 0;
    assert all[..0] == [] && all[0..] == all;
    assert TypedText([]) == "";
    assert text + "" == text;
  }

  lemma SynthesizeOtherHead(k: Key, rest: seq<Key>)
    requires k.action != Type
    ensures Synthesize([k] + rest) == OwnStep(k) + Synthesize(rest)
  {
    assert ([k] + rest)[1..] == rest;
  }

  lemma ConcatAssoc<T>(a: seq<T>, b: seq<T>, c: seq<T>)
    ensures a + b + c == a + (b + c)
  {
  }

  /** The `type` step a flush produces: the pending text, if there is any. */
  function Flushed(text: string, target: Option<string>): seq<FlowStep> {
    if target.Some? then Emit(target.value, text) else []
  }

  /** A step other than `type` ends a pending group and then contributes its own step. */
  lemma OtherStepEndsGroup(text: string, selector: string, k: Key, rest: seq<Key>)
    requires k.action != Type
    ensures Pending(text, Some(selector), [k] + rest) == Emit(selector, text) + OwnStep(k) + Synthesize(rest)
  {
    PendingInterrupted(text, selector, k, rest);
    SynthesizeOtherHead(k, rest);
    ConcatAssoc(Emit(selector, text), OwnStep(k), Synthesize(rest));
  }

  /** A step other than `type` comes after whatever the pending group produces. */
  lemma OtherStepFlushes(text: string, target: Option<string>, k: Key, rest: seq<Key>)
    requires target.None? ==> text == ""
    requires k.action != Type
    ensures Pending(text, target, [k] + rest) == Flushed(text, target) + OwnStep(k) + Synthesize(rest)
  {
    match target
    case Some(selector) =>
      OtherStepEndsGroup(text, selector, k, rest);
    case None =>
      SynthesizeOtherHead(k, rest);
      var produced := OwnStep(k) + Synthesize(rest);
      assert [] + produced == produced;
  }

  /** Typing into another element comes after whatever the pending group produces. */
  lemma NewTargetFlushes(text: string, target: Option<string>, k: Key, rest: seq<Key>)
    requires target.None? ==> text == ""
    requires k.action == Type && target != Some(k.selector)
    ensures Pending(text, target, [k] + rest) == Flushed(text, target) + Pending(k.text, Some(k.selector), rest)
  {
    SynthesizeTypeHead(k, rest);
    if target.Some? {
      PendingInterrupted(text, target.value, k, rest);
    }
  }

  /** The pass's flush: the pending text, when there is any, becomes a `type` step. */
  function Flush(flowSteps: seq<FlowStep>, text: string, target: Option<string>): seq<FlowStep> {
    if text != "" && target.Some? && target.value != "" then flowSteps + [TypeStep(target.value, text)] else flowSteps
  }

  /** The invariant of convertToFlow's pass survives typing into another element. */
  lemma NewTargetKeepsInvariant(done: seq<FlowStep>, text: string, target: Option<string>,
                                k: Key, rest: seq<Key>, total: seq<FlowStep>)
    requires target.None? ==> text == ""
    requires target.Some? ==> target.value != ""
    requires k.action == Type && target != Some(k.selector)
    requires done + Pending(text, target, [k] + rest) == total
    ensures Flush(done, text, target) + Pending(k.text, Some(k.selector), rest) == total
  {
    NewTargetFlushes(text, target, k, rest);
    var next := Pending(k.text, Some(k.selector), rest);
    assert Flush(done, text, target) == done + Flushed(text, target);
    ConcatAssoc(done, Flushed(text, target), next);
  }

  /** The invariant of convertToFlow's pass survives a step other than `type`. */
  lemma OtherStepKeepsInvariant(done: seq<FlowStep>, text: string, target: Option<string>,
                                k: Key, rest: seq<Key>, total: seq<FlowStep>)
    requires target.None? ==> text == ""
    requires target.Some? ==> target.value != ""
    requires k.action != Type
    requires done + Pending(text, target, [k] + rest) == total
    ensures var flushes := text != "" && target.Some?;
      Flush(done, text, target) + OwnStep(k) +
      Pending(if flushes then "" else text, if flushes then None else target, rest) == total
  {
    OtherStepFlushes(text, target, k, rest);
    if text == "" && target.Some? {
      PendingEmptyText(target.value, rest);
    }
    var flushes := text != "" && target.Some?;
    var next := Pending(if flushes then "" else text, if flushes then None else target, rest);
    assert next == Synthesize(rest);
    assert Flush(done, text, target) == done + Flushed(text, target);
    ConcatAssoc(done, Flushed(text, target) + OwnStep(k), next);
    ConcatAssoc(done, Flushed(text, target), OwnStep(k));
  }

  /** With nothing left to read, only the pending text remains to be flushed. */
  lemma PendingAtEnd(text: string, target: Option<string>)
    requires target.None? ==> text == ""
    ensures Pending(text, target, []) == Flushed(text, target)
  {
    if target.Some? {
      var e: seq<Key> := [];
      assert e[..0] == [] && e[0..] == [];
      assert text + "" == text;
    }
  }

  const DefaultFlowName := "Recorded Flow"

  /**
   * One iteration of convertToFlow's pass over `step`: typing into the
   * pending target extends the pending text; typing elsewhere flushes it and
   * starts a new group; any other step flushes it and adds its own step.
   * Whatever follows, the steps produced so far plus those still pending are
   * unchanged by absorbing the step.
   */
  method Absorb(flowSteps: seq<FlowStep>, currentText: string, lastTarget: Option<string>,
                step: RecordedStep, ghost rest: seq<Key>)
    returns (flowSteps': seq<FlowStep>, currentText': string, lastTarget': Option<string>)
    requires lastTarget.None? ==> currentText == ""
    requires lastTarget.Some? ==> lastTarget.value != ""
    ensures lastTarget'.None? ==> currentText' == ""
    ensures lastTarget'.Some? ==> lastTarget'.value != ""
    ensures flowSteps' + Pending(currentText', lastTarget', rest) ==
            flowSteps + Pending(currentText, lastTarget, [KeyOf(step)] + rest)
    // typing into the pending target only extends the pending text
    ensures step.action == Type && lastTarget == Some(GenerateSelector(step)) ==>
            flowSteps' == flowSteps && currentText' == currentText + TextOf(step) && lastTarget' == lastTarget
    // typing elsewhere flushes the pending text and starts a group of its own
    ensures step.action == Type && lastTarget != Some(GenerateSelector(step)) ==>
            flowSteps' == Flush(flowSteps, currentText, lastTarget) &&
            currentText' == TextOf(step) && lastTarget' == Some(GenerateSelector(step))
    // any other step flushes pending text, forgetting the target only then, and adds its own step
    ensures step.action != Type ==>
            flowSteps' == Flush(flowSteps, currentText, lastTarget) + OwnStep(KeyOf(step)) &&
            (if currentText != "" then currentText' == "" && lastTarget' == None
             else currentText' == currentText && lastTarget' == lastTarget)
  {
    flowSteps', currentText', lastTarget' := flowSteps, currentText, lastTarget;
    var targetSelector := GenerateSelector(step);
    ghost var k := KeyOf(step);
    ghost var total := flowSteps + Pending(currentText, lastTarget, [k] + rest);
    if step.action == Type {
      if lastTarget' == Some(targetSelector) {
        currentText' := currentText' + step.text.GetOr("");
        PendingSameTarget(currentText, targetSelector, k, rest);
      } else {
        if currentText' != "" && lastTarget'.Some? && lastTarget'.value != "" {
          flowSteps' := flowSteps' + [TypeStep(lastTarget'.value, currentText')];
        }
        currentText' := step.text.GetOr("");
        lastTarget' := Some(targetSelector);
        NewTargetKeepsInvariant(flowSteps, currentText, lastTarget, k, rest, total);
      }
    } else {
      if currentText' != "" && lastTarget'.Some? && lastTarget'.value != "" {
        flowSteps' := flowSteps' + [TypeStep(lastTarget'.value, currentText')];
        currentText' := "";
        lastTarget' := None;
      }
      if step.action == Click {
        flowSteps' := flowSteps' + [ClickStep(targetSelector)];
      }
      OtherStepKeepsInvariant(flowSteps, currentText, lastTarget, k, rest, total);
      assert flowSteps' == Flush(flowSteps, currentText, lastTarget) + OwnStep(k);
    }
  }

  /**
   * convertToFlow: one pass that accumulates the text typed into one element
   * and flushes it, as a single `type` step, when typing moves to another
   * element, when any other step comes, and at the end. It produces exactly
   * the steps of Synthesize, under version "0.1" and with no variables.
   */
  method ConvertToFlow(steps: seq<RecordedStep>, flowName: string := DefaultFlowName) returns (flow: Flow)
    ensures flow.version == "0.1" && flow.name == flowName && flow.variables == []
    ensures flow.steps == Synthesize(Keys(steps))
    ensures forall j :: 0 <= j < |flow.steps| ==> ProperStep(flow.steps[j])
  {
    var flowSteps: seq<FlowStep> := [];
    var variables: seq<FlowVariable> := [];
    var currentText := "";
    var lastTarget: Option<string> := None;
    assert steps[0..] == steps;
    for i := 0 to |steps|
      invariant lastTarget.None? ==> currentText == ""
      invariant lastTarget.Some? ==> lastTarget.value != ""
      invariant flowSteps + Pending(currentText, lastTarget, Keys(steps[i..])) == Synthesize(Keys(steps))
    {
      KeysFrom(steps, i);
      flowSteps, currentText, lastTarget := Absorb(flowSteps, currentText, lastTarget, steps[i], Keys(steps[i + 1..]));
    }
    assert steps[|steps|..] == [];
    PendingAtEnd(currentText, lastTarget);
    if currentText != "" && lastTarget.Some? && lastTarget.value != "" {
      flowSteps := flowSteps + [TypeStep(lastTarget.value, currentText)];
    }
    flow := Flow("0.1", flowName, variables, flowSteps);
    KeysHaveSelectors(steps);
    SynthesizeGivesProperSteps(Keys(steps));
  }

  // ---------------------------------------------------------------- what the Flow keeps

  /** The texts of a Flow's `type` steps, concatenated in order. */
  function FlowText(fs: seq<FlowStep>): string {
    if fs == [] then "" else (if fs[0].TypeStep? then fs[0].text else "") + FlowText(fs[1..])
  }

  /** The selectors of a Flow's `click` steps, in order. */
  function FlowClicks(fs: seq<FlowStep>): seq<string> {
    if fs == [] then [] else (if fs[0].ClickStep? then [fs[0].selector] else []) + FlowClicks(fs[1..])
  }

  /** The selectors of a recording's clicks, in order. */
  function ClickSelectors(ks: seq<Key>): seq<string> {
    if ks == [] then [] else (if ks[0].action == Click then [ks[0].selector] else []) + ClickSelectors(ks[1..])
  }

  /** Every synthesised step is a click or a `type` step with a non-empty text, on a non-empty selector. */
  predicate ProperStep(f: FlowStep) {
    || (f.ClickStep? && f.selector != "")
    || (f.TypeStep? && f.selector != "" && f.text != "")
  }

  lemma {:induction false} FlowTextAppend(a: seq<FlowStep>, b: seq<FlowStep>)
    ensures FlowText(a + b) == FlowText(a) + FlowText(b)
    decreases |a|
  {
    if a == [] {
      assert a + b == b;
    } else {
      assert (a + b)[1..] == a[1..] + b;
      FlowTextAppend(a[1..], b);
      var h := if a[0].TypeStep? then a[0].text else "";
      assert h + (FlowText(a[1..]) + FlowText(b)) == (h + FlowText(a[1..])) + FlowText(b);
    }
  }

  lemma {:induction false} FlowClicksAppend(a: seq<FlowStep>, b: seq<FlowStep>)
    ensures FlowClicks(a + b) == FlowClicks(a) + FlowClicks(b)
    decreases |a|
  {
    if a == [] {
      assert a + b == b;
    } else {
      assert (a + b)[1..] == a[1..] + b;
      FlowClicksAppend(a[1..], b);
      var h := if a[0].ClickStep? then [a[0].selector] else [];
      ConcatAssoc(h, FlowClicks(a[1..]), FlowClicks(b));
    }
  }

  lemma {:induction false} TypedTextAppend(a: seq<Key>, b: seq<Key>)
    ensures TypedText(a + b) == TypedText(a) + TypedText(b)
    decreases |a|
  {
    if a == [] {
      assert a + b == b;
    } else {
      assert (a + b)[1..] == a[1..] + b;
      TypedTextAppend(a[1..], b);
      var h := if a[0].action == Type then a[0].text else "";
      assert h + (TypedText(a[1..]) + TypedText(b)) == (h + TypedText(a[1..])) + TypedText(b);
    }
  }

  lemma {:induction false} ClickSelectorsAppend(a: seq<Key>, b: seq<Key>)
    ensures ClickSelectors(a + b) == ClickSelectors(a) + ClickSelectors(b)
    decreases |a|
  {
    if a == [] {
      assert a + b == b;
    } else {
      assert (a + b)[1..] == a[1..] + b;
      ClickSelectorsAppend(a[1..], b);
      var h := if a[0].action == Click then [a[0].selector] else [];
      ConcatAssoc(h, ClickSelectors(a[1..]), ClickSelectors(b));
    }
  }

  /** A run of typing holds no click. */
  lemma {:induction false} NoClicksInTyping(selector: string, ks: seq<Key>)
    requires forall i :: 0 <= i < |ks| ==> TypesInto(ks[i], selector)
    ensures ClickSelectors(ks) == []
    decreases |ks|
  {
    if ks != [] {
      NoClicksInTyping(selector, ks[1..]);
    }
  }

  /** A typing group starts with the step that opens it, so it is never empty. */
  lemma GroupSplit(ks: seq<Key>)
    requires ks != [] && ks[0].action == Type
    ensures var n := RunLength(ks[0].selector, ks);
      && 1 <= n
      && ks == ks[..n] + ks[n..]
      && Synthesize(ks) == Emit(ks[0].selector, TypedText(ks[..n])) + Synthesize(ks[n..])
  {
    assert TypesInto(ks[0], ks[0].selector);
  }

  /** No typed text is lost, duplicated or reordered: the Flow's text is all the text typed. */
  lemma {:induction false} SynthesizeKeepsText(ks: seq<Key>)
    ensures FlowText(Synthesize(ks)) == TypedText(ks)
    decreases |ks|
  {
    if ks == [] {
    } else if ks[0].action == Type {
      GroupSplit(ks);
      var n := RunLength(ks[0].selector, ks);
      var e := Emit(ks[0].selector, TypedText(ks[..n]));
      assert FlowText(e) == TypedText(ks[..n]) by {
        if e != [] {
          assert e[1..] == [];
        }
      }
      FlowTextAppend(e, Synthesize(ks[n..]));
      SynthesizeKeepsText(ks[n..]);
      TypedTextAppend(ks[..n], ks[n..]);
    } else {
      var o := OwnStep(ks[0]);
      assert FlowText(o) == "" by {
        if o != [] {
          assert o[1..] == [];
        }
      }
      FlowTextAppend(o, Synthesize(ks[1..]));
      SynthesizeKeepsText(ks[1..]);
    }
  }

  /** Every click becomes exactly one click step, in the same order. */
  lemma {:induction false} SynthesizeKeepsClicks(ks: seq<Key>)
    ensures FlowClicks(Synthesize(ks)) == ClickSelectors(ks)
    decreases |ks|
  {
    if ks == [] {
    } else if ks[0].action == Type {
      GroupSplit(ks);
      var n := RunLength(ks[0].selector, ks);
      var e := Emit(ks[0].selector, TypedText(ks[..n]));
      assert FlowClicks(e) == [] by {
        if e != [] {
          assert e[1..] == [];
        }
      }
      FlowClicksAppend(e, Synthesize(ks[n..]));
      SynthesizeKeepsClicks(ks[n..]);
      NoClicksInTyping(ks[0].selector, ks[..n]);
      ClickSelectorsAppend(ks[..n], ks[n..]);
    } else {
      var o := OwnStep(ks[0]);
      assert FlowClicks(o) == (if ks[0].action == Click then [ks[0].selector] else []) by {
        if o != [] {
          assert o[1..] == [];
        }
      }
      FlowClicksAppend(o, Synthesize(ks[1..]));
      SynthesizeKeepsClicks(ks[1..]);
    }
  }

  /** The Flow never has more steps than the recording. */
  lemma {:induction false} SynthesizeLength(ks: seq<Key>)
    ensures |Synthesize(ks)| <= |ks|
    decreases |ks|
  {
    if ks == [] {
    } else if ks[0].action == Type {
      GroupSplit(ks);
      SynthesizeLength(ks[RunLength(ks[0].selector, ks)..]);
    } else {
      SynthesizeLength(ks[1..]);
    }
  }

  /** On non-empty selectors, every synthesised step is a click or a non-empty `type` step. */
  lemma {:induction false} SynthesizeGivesProperSteps(ks: seq<Key>)
    requires forall i :: 0 <= i < |ks| ==> ks[i].selector != ""
    ensures forall j :: 0 <= j < |Synthesize(ks)| ==> ProperStep(Synthesize(ks)[j])
    decreases |ks|
  {
    if ks == [] {
    } else if ks[0].action == Type {
      GroupSplit(ks);
      var n := RunLength(ks[0].selector, ks);
      SynthesizeGivesProperSteps(ks[n..]);
    } else {
      SynthesizeGivesProperSteps(ks[1..]);
    }
  }

  /** The key of the i-th step is the i-th key. */
  lemma {:induction false} KeyAt(steps: seq<RecordedStep>, i: nat)
    requires i < |steps|
    ensures Keys(steps)[i] == KeyOf(steps[i])
    decreases i
  {
    if i > 0 {
      KeyAt(steps[1..], i - 1);
    }
  }

  lemma KeysHaveSelectors(steps: seq<RecordedStep>)
    ensures forall i :: 0 <= i < |steps| ==> Keys(steps)[i].selector != ""
  {
    forall i | 0 <= i < |steps|
      ensures Keys(steps)[i].selector != ""
    {
      KeyAt(steps, i);
    }
  }

  lemma {:induction false} RunLengthOfTyping(selector: string, ks: seq<Key>)
    requires forall i :: 0 <= i < |ks| ==> TypesInto(ks[i], selector)
    ensures RunLength(selector, ks) == |ks|
    decreases |ks|
  {
    if ks != [] {
      RunLengthOfTyping(selector, ks[1..]);
    }
  }

  /** Typing into one element, however many steps it takes, merges into a single `type` step. */
  lemma SameTargetTypingMerges(selector: string, ks: seq<Key>)
    requires ks != []
    requires forall i :: 0 <= i < |ks| ==> TypesInto(ks[i], selector)
    ensures Synthesize(ks) == Emit(selector, TypedText(ks))
  {
    RunLengthOfTyping(selector, ks);
    assert ks[..|ks|] == ks;
    assert TypesInto(ks[0], selector);
  }

  /** A run of typing stops at a step that does not type into its element. */
  lemma {:induction false} RunLengthStopsAt(selector: string, a: seq<Key>, c: Key, b: seq<Key>)
    requires !TypesInto(c, selector)
    ensures RunLength(selector, a + [c] + b) == RunLength(selector, a)
    decreases |a|
  {
    var s := a + [c] + b;
    if a == [] {
      assert s[0] == c;
    } else {
      assert s[0] == a[0];
      assert s[1..] == a[1..] + [c] + b;
      RunLengthStopsAt(selector, a[1..], c, b);
    }
  }

  /** Regrouping the four parts of a split Flow. */
  lemma Regroup<T>(h: seq<T>, x: seq<T>, y: seq<T>, z: seq<T>)
    ensures h + (x + y + z) == h + x + y + z
  {
    ConcatAssoc(x, y, z);
    ConcatAssoc(h, x, y + z);
    ConcatAssoc(h + x, y, z);
  }

  /** The head and the tail of `a + [c] + b` when `a` is not empty. */
  lemma SplitTail<T>(a: seq<T>, c: T, b: seq<T>)
    requires a != []
    ensures (a + [c] + b)[0] == a[0]
    ensures (a + [c] + b)[1..] == a[1..] + [c] + b
  {
  }

  /** The first `m` elements of `a + [c] + b`, and what follows them, when `m <= |a|`. */
  lemma SplitAt<T>(a: seq<T>, c: T, b: seq<T>, m: nat)
    requires m <= |a|
    ensures (a + [c] + b)[..m] == a[..m]
    ensures (a + [c] + b)[m..] == a[m..] + [c] + b
  {
  }

  lemma SplitAfterOtherHead(a: seq<Key>, c: Key, b: seq<Key>)
    requires a != [] && a[0].action != Type
    requires Synthesize(a[1..] + [c] + b) == Synthesize(a[1..]) + OwnStep(c) + Synthesize(b)
    ensures Synthesize(a + [c] + b) == Synthesize(a) + OwnStep(c) + Synthesize(b)
  {
    SplitTail(a, c, b);
    Regroup(OwnStep(a[0]), Synthesize(a[1..]), OwnStep(c), Synthesize(b));
  }

  lemma SplitAfterTypingGroup(a: seq<Key>, c: Key, b: seq<Key>)
    requires a != [] && a[0].action == Type && c.action != Type
    requires var m := RunLength(a[0].selector, a);
      Synthesize(a[m..] + [c] + b) == Synthesize(a[m..]) + OwnStep(c) + Synthesize(b)
    ensures Synthesize(a + [c] + b) == Synthesize(a) + OwnStep(c) + Synthesize(b)
  {
    var selector := a[0].selector;
    var m := RunLength(selector, a);
    RunLengthStopsAt(selector, a, c, b);
    SplitTail(a, c, b);
    GroupSplit(a);
    SplitAt(a, c, b, m);
    Regroup(Emit(selector, TypedText(a[..m])), Synthesize(a[m..]), OwnStep(c), Synthesize(b));
  }

  /**
   * A step other than `type` is a barrier: the Flow of a recording is the
   * Flow of what comes before it, then its own step, then the Flow of what
   * comes after it.
   */
  lemma {:induction false} SynthesizeSplitsAtOtherStep(a: seq<Key>, c: Key, b: seq<Key>)
    requires c.action != Type
    ensures Synthesize(a + [c] + b) == Synthesize(a) + OwnStep(c) + Synthesize(b)
    decreases |a|
  {
    if a == [] {
      assert a + [c] + b == [c] + b;
      SynthesizeOtherHead(c, b);
    } else if a[0].action != Type {
      SynthesizeSplitsAtOtherStep(a[1..], c, b);
      SplitAfterOtherHead(a, c, b);
    } else {
      GroupSplit(a);
      SynthesizeSplitsAtOtherStep(a[RunLength(a[0].selector, a)..], c, b);
      SplitAfterTypingGroup(a, c, b);
    }
  }

  // ---------------------------------------------------------------- recorded scenarios

  lemma KeysOfTwo(a: RecordedStep, b: RecordedStep)
    ensures Keys([a, b]) == [KeyOf(a), KeyOf(b)]
  {
    assert [a, b][1..] == [b];
    assert [b][1..] == [];
  }

  /** With a role and an identifier, the selector is the role fragment followed by the id fragment. */
  lemma RoleAndIdSelector(step: RecordedStep)
    requires step.targetDescriptor.role != "" && step.targetDescriptor.identifier != ""
    ensures GenerateSelector(step) == RoleFragment(step.targetDescriptor.role) + IdFragment(step.targetDescriptor.identifier)
  {
    SelectorPrecedence(step);
  }

  /** A click followed by typing into another element: a click step, then one `type` step. */
  lemma ClickThenTypeFlow(button: string, field: string, text: string)
    requires text != ""
    ensures Synthesize([Key(Click, button, ""), Key(Type, field, text)]) == [ClickStep(button), TypeStep(field, text)]
  {
    var typing := Key(Type, field, text);
    assert [Key(Click, button, ""), typing] == [Key(Click, button, "")] + [typing];
    SynthesizeOtherHead(Key(Click, button, ""), [typing]);
    SameTargetTypingMerges(field, [typing]);
    assert [typing] == [typing] + [];
    TypedTextCons(typing, []);
    assert text + "" == text;
  }

  /** Two pieces of typing into one element: one `type` step with the texts joined. */
  lemma TypeTwiceFlow(field: string, first: string, second: string)
    requires first + second != ""
    ensures Synthesize([Key(Type, field, first), Key(Type, field, second)]) == [TypeStep(field, first + second)]
  {
    var (a, b) := (Key(Type, field, first), Key(Type, field, second));
    SameTargetTypingMerges(field, [a, b]);
    assert [a, b] == [a] + [b];
    TypedTextCons(a, [b]);
    assert [b] == [b] + [];
    TypedTextCons(b, []);
    assert second + "" == second;
  }

  /**
   * Clicking a button and then typing an address into a field, both with a
   * role and an identifier, gives a click step and a `type` step, each
   * selected by role and id.
   */
  lemma ClickThenTypeScenario(click: RecordedStep, typing: RecordedStep)
    requires click.action == Click && click.text == None
    requires typing.action == Type && typing.text.Some? && typing.text.value != ""
    requires click.targetDescriptor.role != "" && click.targetDescriptor.identifier != ""
    requires typing.targetDescriptor.role != "" && typing.targetDescriptor.identifier != ""
    ensures Synthesize(Keys([click, typing])) ==
            [ClickStep(RoleFragment(click.targetDescriptor.role) + IdFragment(click.targetDescriptor.identifier)),
             TypeStep(RoleFragment(typing.targetDescriptor.role) + IdFragment(typing.targetDescriptor.identifier),
                      typing.text.value)]
  {
    RoleAndIdSelector(click);
    RoleAndIdSelector(typing);
    KeysOfTwo(click, typing);
    ClickThenTypeFlow(GenerateSelector(click), GenerateSelector(typing), typing.text.value);
  }

  /**
   * Typing "Hello" and then " World" into one field (the same role and
   * identifier) gives a single `type` step holding "Hello World".
   */
  lemma GroupedTypingScenario(hello: RecordedStep, world: RecordedStep)
    requires hello.action == Type && hello.text == Some("Hello")
    requires world.action == Type && world.text == Some(" World")
    requires hello.targetDescriptor == world.targetDescriptor
    requires hello.targetDescriptor.role != "" && hello.targetDescriptor.identifier != ""
    ensures Synthesize(Keys([hello, world])) ==
            [TypeStep(RoleFragment(hello.targetDescriptor.role) + IdFragment(hello.targetDescriptor.identifier),
                      "Hello World")]
  {
    RoleAndIdSelector(hello);
    RoleAndIdSelector(world);
    KeysOfTwo(hello, world);
    TypeTwiceFlow(GenerateSelector(hello), "Hello", " World");
    assert "Hello" + " World" == "Hello World";
  }

  /**
   * An element with a role and neither identifier nor title is selected by
   * its role alone: the positional fallback is not used for it.
   */
  lemma RoleOnlyScenario(step: RecordedStep)
    requires step.targetDescriptor.role == "AXButton"
    requires step.targetDescriptor.identifier == "" && step.targetDescriptor.title == ""
    ensures GenerateSelector(step) == "[role=\"AXButton\"]"
  {
    SelectorPrecedence(step);
  }

  /** An element with no role, identifier or title is selected by its position. */
  lemma AnonymousScenario(step: RecordedStep)
    requires step.targetDescriptor.role == "" && step.targetDescriptor.identifier == ""
    requires step.targetDescriptor.title == ""
    requires step.targetDescriptor.frame.x == 300 && step.targetDescriptor.frame.y == 400
    ensures GenerateSelector(step) == "[ax-position=\"300,400\"]"
  {
    SelectorPrecedence(step);
    PositionOfTestPoint();
  }

  /**
   * Two elements with no role, identifier or title get the same selector
   * exactly when their frames start at the same point; so typing into
   * anonymous elements at different positions is never merged.
   */
  lemma AnonymousSelectorsDistinguishPositions(s: RecordedStep, t: RecordedStep)
    requires s.targetDescriptor.role == "" && s.targetDescriptor.identifier == "" && s.targetDescriptor.title == ""
    requires t.targetDescriptor.role == "" && t.targetDescriptor.identifier == "" && t.targetDescriptor.title == ""
    ensures GenerateSelector(s) == GenerateSelector(t) <==>
      s.targetDescriptor.frame.x == t.targetDescriptor.frame.x && s.targetDescriptor.frame.y == t.targetDescriptor.frame.y
  {
    SelectorPrecedence(s);
    SelectorPrecedence(t);
    PositionFragmentInjective(s.targetDescriptor.frame.x, s.targetDescriptor.frame.y,
                              t.targetDescriptor.frame.x, t.targetDescriptor.frame.y);
  }

  /** The position fragment of the point (300, 400), digit by digit. */
  lemma PositionOfTestPoint()
    ensures PositionFragment(300, 400) == "[ax-position=\"300,400\"]"
  {
    Digits300();
    Digits400();
  }

  lemma Digits300()
    ensures NatToString(300) == "300"
  {
    assert NatToString(3) == "3";
    assert NatToString(30) == "30";
  }

  lemma Digits400()
    ensures NatToString(400) == "400"
  {
    assert NatToString(4) == "4";
    assert NatToString(40) == "40";
  }
}
