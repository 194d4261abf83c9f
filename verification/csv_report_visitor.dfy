/** `CsvReportVisitor`: type facts of the whole tree, written to a
    `CsvReports`. Like `SymbolsExtractVisitor`, but a declarator's resolved
    type is turned into a row as well. */
module CsvReportVisitor {
  import opened Base
  import opened Syntax
  import opened CsvUtils
  import opened Reports
  import opened Traversal
  import opened Resolution
  import opened TypeFallback
  import CsvReports

  /** The type an array type finally holds. */
  function ElementOf(t: ResolvedType): (e: ResolvedType)
    ensures !e.ArrayT?
  {
    if t.ArrayT? then ElementOf(t.component) else t
  }

  /** `handleResolvedType(n, arg, t)`: nothing for a primitive, a regular row
      for a reference type, the component for an array, an error row for a
      type variable, and an `IllegalStateException` naming the class for
      anything else. Arrays of any depth are unwrapped down to the element, so
      the outcome is that of the element type. */
  function HandleResolvedType(at: Pos, text: string, t: ResolvedType): (r: Trace)
    ensures ElementOf(t).PrimitiveT? ==> r == Empty
    ensures ElementOf(t).ReferenceT? ==> r == Trace([Regular(at, [Text(ElementOf(t).qualifiedName)])], None)
    ensures ElementOf(t).TypeVariableT? ==>
      r == Trace([Error(at, "Type variables not supported yet: " + text, Some(text))], None)
    ensures ElementOf(t).OtherT? ==> r == Trace([], Some(Exc(IllegalState, Some(ElementOf(t).className))))
  {
    match t
    case PrimitiveT => Empty
    case ReferenceT(q) => Trace([Regular(at, [Text(q)])], None)
    case ArrayT(c) => HandleResolvedType(at, text, c)
    case TypeVariableT => Trace([Error(at, "Type variables not supported yet: " + text, Some(text))], None)
    case OtherT(cls) => Trace([], Some(Exc(IllegalState, Some(cls))))
  }

  function Own(o: Oracle, v: Visit): (t: Trace)
    ensures v.node.kind.TypeParameter? ==> t == TypeParameterOwn(v.node)
    ensures v.node.kind.ClassOrInterfaceType? ==> t == CoitOwn(o.typeOf, v.node, v.ancestors)
    // a declarator of primitive type writes nothing
    ensures v.node.kind.VariableDeclarator? && v.node.kind.primitive ==> t == Empty
    ensures v.node.kind.VariableDeclarator? && !v.node.kind.primitive && o.declaredType(v.node.id).Resolved? ==>
      t == HandleResolvedType(StartOf(v.node), v.node.text, o.declaredType(v.node.id).value)
    ensures v.node.kind.VariableDeclarator? && !v.node.kind.primitive && !o.declaredType(v.node.id).Resolved? ==>
      t == DeclaratorFailure(v.node, o.declaredType(v.node.id))
    ensures !v.node.kind.TypeParameter? && !v.node.kind.ClassOrInterfaceType? && !v.node.kind.VariableDeclarator? ==>
      t == Empty
  {
    var n := v.node;
    match n.kind
    case TypeParameter => TypeParameterOwn(n)
    case ClassOrInterfaceType => CoitOwn(o.typeOf, n, v.ancestors)
    case VariableDeclarator(primitive) =>
      if primitive then Empty
      else
        (match o.declaredType(n.id)
         case Resolved(t) => HandleResolvedType(StartOf(n), n.text, t)
         case r => DeclaratorFailure(n, r))
    case _ => Empty
  }

  function Extract(o: Oracle, root: Node): Trace
  {
    Walk(v => Own(o, v), true, root, [])
  }

  /** The report after the walk, closed. */
  function Report(o: Oracle, root: Node, fakeOutput: string): CsvReports.MultiReport
  {
    CsvReports.CloseAll(CsvReports.EmitAll(CsvReports.NewMultiReport(fakeOutput), Extract(o, root).events))
  }

  /** Children before parents. */
  lemma ExtractIsPostOrder(o: Oracle, root: Node)
    requires !HasUnparsable(root)
    ensures Extract(o, root) == Run(v => Own(o, v), PostOrder(root, []))
  {
    WalkIsPostOrder(v => Own(o, v), true, root, []);
  }

  lemma UnparsableFails(o: Oracle, root: Node)
    requires HasUnparsable(root)
    ensures Extract(o, root).fault.Some?
  {
    UnparsableAborts(v => Own(o, v), root, []);
  }

  /** A declarator whose resolved type is an array of references, at any
      depth, gets the element's row. */
  lemma {:induction false} NestedArrayRow(at: Pos, text: string, q: string, depth: nat)
    ensures HandleResolvedType(at, text, Nest(ReferenceT(q), depth)) == Trace([Regular(at, [Text(q)])], None)
    decreases depth
  {
    if depth > 0 {
      NestedArrayRow(at, text, q, depth - 1);
    }
  }

  /** `depth` array levels around `t`. */
  function Nest(t: ResolvedType, depth: nat): ResolvedType
    decreases depth
  {
    if depth == 0 then t else ArrayT(Nest(t, depth - 1))
  }
}
