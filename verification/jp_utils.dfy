/** Tree searches and small helpers over compilation units (`JpUtils`). */
module JpUtils {
  import opened Base
  import opened Syntax

  /** `findNodeForRange`: the first child (in child order) that yields a match,
      else the node itself; nothing for a phantom node, a node without a range,
      or a node whose range does not contain the target. */
  function FindNodeForRange(n: Node, target: Range): (r: Option<Node>)
    ensures n.phantom || n.range.None? || !Contains(n.range.value, target) ==> r.None?
    ensures !n.phantom && n.range.Some? && Contains(n.range.value, target) ==> r.Some?
    ensures r.Some? ==> !r.value.phantom && r.value.range.Some? && Contains(r.value.range.value, target)
    ensures r.Some? ==> InTree(r.value, n)
    decreases n, 1
  {
    if n.phantom || n.range.None? || !Contains(n.range.value, target) then None
    else
      match FirstInChildren(n.children, target)
      case Some(m) => Some(m)
      case None => Some(n)
  }

  /** The loop over the children of `findNodeForRange`. */
  function FirstInChildren(cs: seq<Node>, target: Range): (r: Option<Node>)
    ensures r.Some? ==> !r.value.phantom && r.value.range.Some? && Contains(r.value.range.value, target)
    ensures r.Some? ==> exists k :: 0 <= k < |cs| && InTree(r.value, cs[k])
    ensures r.None? <==> forall k :: 0 <= k < |cs| ==> FindNodeForRange(cs[k], target).None?
    decreases cs, 0
  {
    if |cs| == 0 then None
    else
      match FindNodeForRange(cs[0], target)
      case Some(m) => Some(m)
      case None =>
        var rest := FirstInChildren(cs[1..], target);
        assert forall k :: 1 <= k < |cs| ==> cs[k] == cs[1..][k - 1];
        rest
  }

  /** A node `findNodeForRange` returns is a deepest match along its path: none
      of its own children contains the target. */
  lemma FoundNodeIsInnermost(n: Node, target: Range)
    requires FindNodeForRange(n, target).Some?
    ensures var m := FindNodeForRange(n, target).value;
      forall k :: 0 <= k < |m.children| ==>
        var c := m.children[k]; c.phantom || c.range.None? || !Contains(c.range.value, target)
    decreases n
  {
    var m := FindNodeForRange(n, target).value;
    match FirstInChildren(n.children, target)
    case None =>
      assert m == n;
      forall k | 0 <= k < |m.children|
        ensures var c := m.children[k]; c.phantom || c.range.None? || !Contains(c.range.value, target)
      {
        assert FindNodeForRange(n.children[k], target).None?;
      }
    case Some(_) =>
      var k := FirstMatchIndex(n.children, target);
      FoundNodeIsInnermost(n.children[k], target);
  }

  /** The child whose match `FirstInChildren` returns. */
  lemma FirstMatchIndex(cs: seq<Node>, target: Range) returns (k: nat)
    requires FirstInChildren(cs, target).Some?
    ensures k < |cs| && FindNodeForRange(cs[k], target) == FirstInChildren(cs, target)
    ensures forall j :: 0 <= j < k ==> FindNodeForRange(cs[j], target).None?
    decreases |cs|
  {
    if FindNodeForRange(cs[0], target).Some? {
      k := 0;
    } else {
      var k' := FirstMatchIndex(cs[1..], target);
      k := k' + 1;
      assert cs[1..][k'] == cs[k];
      forall j | 0 <= j < k ensures FindNodeForRange(cs[j], target).None? {
        if j > 0 { assert cs[j] == cs[1..][j - 1]; }
      }
    }
  }

  /** The cursor lies within the closed range [begin, end]. */
  predicate Within(cursor: Pos, r: Range)
  {
    !Before(cursor, r.begin) && !Before(r.end, cursor)
  }

  /** `getNodeAt(line, column, root)`: children first, returning the first
      child result found; the node itself only when the cursor lies within its
      range; nothing for a node without begin and end. */
  function GetNodeAt(line: int, column: int, root: Node): (r: Option<Node>)
    ensures root.range.None? ==> r.None?
    ensures root.range.Some? && Within(Pos(line, column), root.range.value) ==> r.Some?
    ensures r.Some? ==> r.value.range.Some? && Within(Pos(line, column), r.value.range.value)
    ensures r.Some? ==> InTree(r.value, root)
    decreases root, 1
  {
    if root.range.None? then None
    else
      match NodeAtInChildren(line, column, root.children)
      case Some(m) => Some(m)
      case None => if Within(Pos(line, column), root.range.value) then Some(root) else None
  }

  function NodeAtInChildren(line: int, column: int, cs: seq<Node>): (r: Option<Node>)
    ensures r.Some? ==> r.value.range.Some? && Within(Pos(line, column), r.value.range.value)
    ensures r.Some? ==> exists k :: 0 <= k < |cs| && InTree(r.value, cs[k])
    ensures r.None? <==> forall k :: 0 <= k < |cs| ==> GetNodeAt(line, column, cs[k]).None?
    decreases cs, 0
  {
    if |cs| == 0 then None
    else
      match GetNodeAt(line, column, cs[0])
      case Some(m) => Some(m)
      case None =>
        var rest := NodeAtInChildren(line, column, cs[1..]);
        assert forall k :: 1 <= k < |cs| ==> cs[k] == cs[1..][k - 1];
        rest
  }

  /** A child match always wins over the node itself, even when the node's own
      range does not hold the cursor (a child may reach outside its parent). */
  lemma ChildMatchWins(line: int, column: int, root: Node, k: nat)
    requires root.range.Some? && k < |root.children|
    requires GetNodeAt(line, column, root.children[k]).Some?
    requires forall j :: 0 <= j < k ==> GetNodeAt(line, column, root.children[j]).None?
    ensures GetNodeAt(line, column, root) == GetNodeAt(line, column, root.children[k])
  {
    FirstNodeAt(line, column, root.children, k);
  }

  lemma {:induction false} FirstNodeAt(line: int, column: int, cs: seq<Node>, k: nat)
    requires k < |cs| && GetNodeAt(line, column, cs[k]).Some?
    requires forall j :: 0 <= j < k ==> GetNodeAt(line, column, cs[j]).None?
    ensures NodeAtInChildren(line, column, cs) == GetNodeAt(line, column, cs[k])
    decreases k
  {
    if k > 0 {
      assert GetNodeAt(line, column, cs[0]).None?;
      forall j | 0 <= j < k - 1 ensures GetNodeAt(line, column, cs[1..][j]).None? {
        assert cs[1..][j] == cs[j + 1];
      }
      assert cs[1..][k - 1] == cs[k];
      FirstNodeAt(line, column, cs[1..], k - 1);
    }
  }

  /** `getQualifiedName(Parameter)`: a primitive's text, an array's element
      type followed by "[]", otherwise the resolved qualified name; exceptions
      from resolving (or from the class-type cast) propagate. */
  function GetQualifiedName(p: ParamType): (r: Outcome<string>)
    ensures p.PrimitiveParam? ==> r == Ok(p.text)
    ensures p.ArrayParam? ==> r == Ok(p.elementText + "[]")
    ensures p.ClassParam? ==> r == p.resolved
    ensures p.OtherParam? ==> r == Fail(p.failure)
  {
    match p
    case PrimitiveParam(t) => Ok(t)
    case ArrayParam(e) => Ok(e + "[]")
    case ClassParam(res) => res
    case OtherParam(e) => Fail(e)
  }

  /** What `JavaParser.parse(File)` reports. */
  datatype ParseResult = FileNotFound | ParseResult(result: Option<Unit>, problems: seq<string>)

  /** `ParseResult.isSuccessful()`. */
  predicate IsSuccessful(r: ParseResult)
  {
    r.ParseResult? && |r.problems| == 0 && r.result.Some?
  }

  /** What `JpUtils.parse` returns or throws. */
  datatype ParseOutcome =
    | Parsed(unit: Unit)                      // the unit is returned
    | ParseProblem(problems: seq<string>)     // ParseProblemException
    | MissingFile(file: string)               // IllegalStateException around FileNotFoundException

  /** `parse(parser, file)`, with the parser as a function of the file name. */
  function Parse(parser: string -> ParseResult, file: string): (r: ParseOutcome)
    ensures r.Parsed? <==> IsSuccessful(parser(file))
    ensures r.Parsed? ==> Some(r.unit) == parser(file).result
    ensures r.MissingFile? <==> parser(file).FileNotFound?
    ensures r.ParseProblem? ==> r.problems == parser(file).problems
  {
    var res := parser(file);
    if res.FileNotFound? then MissingFile(file)
    else if IsSuccessful(res) then Parsed(res.result.value)
    else ParseProblem(res.problems)
  }

  /** `findPath` (and `findFilePath`; storage paths are taken to be absolute):
      throws `IllegalArgumentException` for a unit without storage. */
  function FindPath(u: Unit): (r: Outcome<string>)
    ensures r.Ok? <==> u.storage.Some?
    ensures r.Ok? ==> r.value == u.storage.value
    ensures r.Fail? ==> r.exc == Exc(IllegalArgument, Some("No storage for compilation unit!"))
  {
    match u.storage
    case Some(p) => Ok(p)
    case None => Fail(Exc(IllegalArgument, Some("No storage for compilation unit!")))
  }

  /** `getPackageName`: the package declaration's name, or null without one. */
  function GetPackageName(u: Unit): (r: Option<string>)
    ensures r.None? <==> u.packageName.None?
    ensures r.Some? ==> r.value == u.packageName.value
  {
    u.packageName
  }
}
