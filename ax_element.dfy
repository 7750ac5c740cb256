/**
 * Reading accessibility attributes of a UI element (AXElementInfo).
 * The accessibility API itself is outside the model: what it answers is an
 * input — one reply per attribute lookup, and the element's parent chain.
 */
module AxElement {
  import opened Wrappers
  import opened Types

  /** How an attribute lookup came back: failed, with no value, with a non-string value, or with a string. */
  datatype AttributeReply = LookupFailed | NoValue | NotAString | StringValue(s: string)

  datatype Size = Size(width: int, height: int)

  /** The role, title and identifier of one element on a parent chain, already read as strings. */
  datatype ChainElement = ChainElement(role: string, title: string, identifier: string)

  /**
   * Everything the accessibility API answers about one element. `position`
   * and `size` are None when their lookup or their value conversion failed.
   * `chain[0]` is the element itself, `chain[k + 1]` the parent of
   * `chain[k]`, and the chain ends with the first element whose parent
   * lookup fails.
   */
  datatype ElementView = ElementView(
    role: AttributeReply,
    title: AttributeReply,
    identifier: AttributeReply,
    value: AttributeReply,
    position: Option<Point>,
    size: Option<Size>,
    chain: seq<ChainElement>)

  /** getStringAttribute: the string value, and "" for every kind of failure. */
  function StringAttribute(hasElement: bool, reply: AttributeReply): (r: string)
    ensures r != "" ==> hasElement && reply.StringValue? && r == reply.s
    ensures hasElement && reply.StringValue? ==> r == reply.s
    ensures !hasElement || !reply.StringValue? ==> r == ""
  {
    if !hasElement then ""
    else match reply
      case StringValue(s) => s
      case _ => ""
  }

  /** getFrame: the element's frame, or the zero frame unless both position and size were read. */
  function ElementFrame(hasElement: bool, position: Option<Point>, size: Option<Size>): (f: Frame)
    ensures hasElement && position.Some? && size.Some? ==>
      f == Frame(position.value.x, position.value.y, size.value.width, size.value.height)
    ensures !(hasElement && position.Some? && size.Some?) ==> f == ZeroFrame
  {
    if !hasElement then ZeroFrame
    else if position.Some? && size.Some? then
      Frame(position.value.x, position.value.y, size.value.width, size.value.height)
    else ZeroFrame
  }

  function TitleComponent(title: string): string {
    if title != "" then "[title=\"" + title + "\"]" else ""
  }

  function IdComponent(identifier: string): string {
    if identifier != "" then "[id=\"" + identifier + "\"]" else ""
  }

  /**
   * One ancestry path component: the bare role, then the title part, then the
   * identifier part, each part present only when its string is non-empty.
   */
  function PathComponent(e: ChainElement): (c: string)
    ensures |c| == |e.role| + |TitleComponent(e.title)| + |IdComponent(e.identifier)|
    ensures e.role <= c
    ensures c == e.role <==> e.title == "" && e.identifier == ""
    ensures e.title != "" ==>
      c[|e.role|..|e.role| + |TitleComponent(e.title)|] == "[title=\"" + e.title + "\"]"
    ensures e.identifier != "" ==>
      c[|c| - |IdComponent(e.identifier)|..] == "[id=\"" + e.identifier + "\"]"
  {
    e.role + TitleComponent(e.title) + IdComponent(e.identifier)
  }

  /**
   * getAncestryPath: walks from the element up its parent chain, putting each
   * element's component in front of those found so far, so the path is
   * root-first and ends with the element itself. No element gives the empty path.
   */
  method GetAncestryPath(chain: seq<ChainElement>) returns (path: seq<string>)
    ensures |path| == |chain|
    ensures forall j :: 0 <= j < |chain| ==> path[|chain| - 1 - j] == PathComponent(chain[j])
  {
    path := [];
    var k := 0;
    while k < |chain|
      invariant 0 <= k <= |chain|
      invariant |path| == k
      invariant forall j :: 0 <= j < k ==> path[k - 1 - j] == PathComponent(chain[j])
    {
      var current := chain[k];
      var pathComponent := current.role;
      if current.title != "" {
        pathComponent := pathComponent + TitleComponent(current.title);
      }
      if current.identifier != "" {
        pathComponent := pathComponent + IdComponent(current.identifier);
      }
      assert pathComponent == PathComponent(current);
      path := [pathComponent] + path;
      k := k + 1;
    }
  }
}
