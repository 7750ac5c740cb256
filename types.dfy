/**
 * The recorder's data model: the step the native layer captures, the step
 * JavaScript sees, and the Flow document synthesised from a recording.
 * Geometry is integer-valued (the native layer truncates its floating-point
 * coordinates to `int` before storing them).
 */
module Types {
  import opened Wrappers

  datatype Point = Point(x: int, y: int)

  datatype Frame = Frame(x: int, y: int, width: int, height: int)

  const ZeroFrame := Frame(0, 0, 0, 0)

  datatype Modifiers = Modifiers(shift: bool, control: bool, option: bool, command: bool)

  /** The modifiers of a step that did not set them (all four default to false). */
  const NoModifiers := Modifiers(false, false, false, false)

  datatype ApplicationInfo = ApplicationInfo(name: string, processId: int)

  /** Accessibility metadata of the element a step acted on; any string may be empty. */
  datatype TargetDescriptor = TargetDescriptor(
    role: string,
    title: string,
    identifier: string,
    value: string,
    frame: Frame,
    ancestry: seq<string>)

  /** The descriptor of a step for which no element was found. */
  const EmptyDescriptor := TargetDescriptor("", "", "", "", ZeroFrame, [])

  datatype Action = Click | Type | Drag

  /**
   * A step as the native layer stores it: `button` and `text` are plain
   * strings, the empty string meaning "not set".
   */
  datatype NativeStep = NativeStep(
    timestamp: int,
    sessionId: string,
    action: Action,
    button: string,
    text: string,
    location: Point,
    modifiers: Modifiers,
    targetDescriptor: TargetDescriptor,
    appInfo: ApplicationInfo)

  /** A step as JavaScript sees it: `button` and `text` are optional properties. */
  datatype RecordedStep = RecordedStep(
    timestamp: int,
    sessionId: string,
    action: Action,
    button: Option<string>,
    text: Option<string>,
    location: Point,
    modifiers: Modifiers,
    targetDescriptor: TargetDescriptor,
    appInfo: ApplicationInfo)

  /**
   * One step of a Flow. Only `click` and `type` steps are synthesised from a
   * recording; the other kinds are reserved for flows written by hand.
   */
  datatype FlowStep =
    | ClickStep(selector: string)
    | TypeStep(selector: string, text: string)
    | NavigateStep(url: string)
    | WaitForStep(condition: string, timeout: Option<nat>)
    | OpenAppStep(app: string)
    | GuardStep(condition: string)

  datatype VariableType = TextVar | NumberVar | BooleanVar | FileVar | TableVar | SecretVar

  datatype VariableSource = PromptSource | FileSource | SheetsSource

  datatype FlowVariable = FlowVariable(name: string, varType: VariableType, required: bool, source: Option<VariableSource>)

  datatype Flow = Flow(version: string, name: string, variables: seq<FlowVariable>, steps: seq<FlowStep>)

  /** A thrown JavaScript error: its class and its message. */
  datatype JsError = TypeError(message: string) | Error(message: string)
}
