/** The parts of a JavaParser syntax tree the analysed program looks at.

    A node carries an identity (`id`, standing for object identity: the
    resolver's answers are keyed by it), the node kinds the visitors single out,
    its printed text (`toString()`), its optional source range, whether it is a
    phantom node, and its children twice: `children` in `getChildNodes()`
    order, which the tree searches follow, and `visitOrder`, the same nodes in
    the order the generated `VoidVisitorAdapter` visits the node's properties
    (for a variable declarator: initializer, name, type), which the walk
    follows.
 */
module Syntax {
  import opened Base

  /** A source position; lines and columns are Java `int`s. */
  datatype Pos = Pos(line: int, column: int)

  /** `Position.isBefore`. */
  predicate Before(a: Pos, b: Pos)
  {
    a.line < b.line || (a.line == b.line && a.column < b.column)
  }

  predicate BeforeOrEqual(a: Pos, b: Pos)
  {
    Before(a, b) || a == b
  }

  datatype Range = Range(begin: Pos, end: Pos)

  /** `Range.contains(other)`: begins no later and ends no earlier. */
  predicate Contains(outer: Range, inner: Range)
  {
    BeforeOrEqual(outer.begin, inner.begin) && BeforeOrEqual(inner.end, outer.end)
  }

  /** An identifier together with where it starts. */
  datatype SimpleName = SimpleName(id: string, pos: Pos)

  /** The declared type of a method parameter, as `getQualifiedName(Parameter)`
      distinguishes it. A class or interface type carries what resolving it
      gives; any other kind of type carries the exception that
      `asClassOrInterfaceType()` throws. */
  datatype ParamType =
    | PrimitiveParam(text: string)
    | ArrayParam(elementText: string)   // the innermost element type's text
    | ClassParam(resolved: Outcome<string>)
    | OtherParam(failure: Exc)

  datatype Kind =
    | ClassOrInterfaceType
    | TypeParameter
    | VariableDeclarator(primitive: bool)          // whether its declared type is a primitive type
    | UnparsableStmt
    | MethodCallExpr(name: SimpleName, scope: Option<nat>)   // the receiver, when present, as an index into the children
    | ThisExpr
    | ClassExpr
    | ClassOrInterfaceDeclaration(simpleName: string, fqn: Option<string>)
    | OtherNode

  datatype Node = Node(id: nat, kind: Kind, text: string, range: Option<Range>, phantom: bool,
                       children: seq<Node>, visitOrder: seq<Node>)

  /** `getStart(node)`: where the node begins. The parser gives every node it
      builds a range, so the fallback position stands for a case that does not
      arise. */
  function StartOf(n: Node): Pos
  {
    match n.range
    case Some(r) => r.begin
    case None => Pos(0, 0)
  }

  /** `m` is `n` or a node below it. */
  predicate InTree(m: Node, n: Node)
    decreases n
  {
    m == n || exists k :: 0 <= k < |n.children| && InTree(m, n.children[k])
  }

  /** What encloses a method declaration (`getParentNode()`). */
  datatype DeclParent =
    | NoParent
    | ClassOrInterfaceParent(fqn: Option<string>)   // with `getFullyQualifiedName()`
    | EnumParent(fqn: Option<string>)
    | OtherParent

  /** A method declaration in source: its name, its parameters' declared types
      in declaration order, and what encloses it. */
  datatype MethodDecl = MethodDecl(name: SimpleName, params: seq<ParamType>, parent: DeclParent)

  /** A compilation unit: where it is stored, its package declaration, the fully
      qualified names of its top-level types (`getTypes()`, a name may be
      absent), and the dotted in-file names of every type it declares
      (`Outer`, `Outer.Inner`, ...), which is what `Navigator.findType` searches. */
  datatype Unit = Unit(storage: Option<string>, packageName: Option<string>, types: seq<Option<string>>, declared: set<string>)
}
