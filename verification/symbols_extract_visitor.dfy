/** `SymbolsExtractVisitor`: type facts of one file, written to a "types"
    report. */
module SymbolsExtractVisitor {
  import opened Base
  import opened Syntax
  import opened CsvUtils
  import opened Reports
  import opened Traversal
  import opened Resolution
  import opened TypeFallback
  import TypesCsvReport

  /** The visitor's own work at one node, after its children. */
  function Own(o: Oracle, v: Visit): (t: Trace)
    ensures v.node.kind.TypeParameter? ==> t == TypeParameterOwn(v.node)
    ensures v.node.kind.ClassOrInterfaceType? ==> t == CoitOwn(o.typeOf, v.node, v.ancestors)
    // a declarator writes nothing when its type is primitive or resolves
    ensures v.node.kind.VariableDeclarator? && (v.node.kind.primitive || o.declaredType(v.node.id).Resolved?) ==>
      t == Empty
    ensures v.node.kind.VariableDeclarator? && !v.node.kind.primitive && !o.declaredType(v.node.id).Resolved? ==>
      t == DeclaratorFailure(v.node, o.declaredType(v.node.id))
    ensures !v.node.kind.TypeParameter? && !v.node.kind.ClassOrInterfaceType? && !v.node.kind.VariableDeclarator? ==>
      t == Empty
  {
    var n := v.node;
    match n.kind
    case TypeParameter => TypeParameterOwn(n)
    case ClassOrInterfaceType => CoitOwn(o.typeOf, n, v.ancestors)
    case VariableDeclarator(primitive) =>
      if primitive then Empty
      else
        var r := o.declaredType(n.id);
        if r.Resolved? then Empty else DeclaratorFailure(n, r)
    case _ => Empty
  }

  /** The visitor applied to a file's tree; it overrides `visit(UnparsableStmt)`
      to throw. */
  function Extract(o: Oracle, root: Node): Trace
  {
    Walk(v => Own(o, v), true, root, [])
  }

  /** The report after the walk, closed: the rows written before any exception
      stay written. */
  function Report(o: Oracle, root: Node, fakeOutput: string): CsvReport
  {
    CloseReport(EmitAll(TypesCsvReport.New(fakeOutput), Extract(o, root).events))
  }

  /** No type resolution the visitor asks for throws an exception it does
      not catch. */
  ghost predicate NoStrayExceptions(o: Oracle)
  {
    forall id :: !o.typeOf(id).Threw? && !o.declaredType(id).Threw?
  }

  /** Without unparsable statements and stray exceptions the extraction runs
      to the end: its rows are the per-node rows in post-order, at most one
      per node. */
  lemma ExtractCompletes(o: Oracle, root: Node)
    requires !HasUnparsable(root) && NoStrayExceptions(o)
    ensures Extract(o, root) == Trace(EventsOf(v => Own(o, v), PostOrder(root, [])), None)
    ensures |Extract(o, root).events| <= |PostOrder(root, [])|
  {
    var own := v => Own(o, v);
    var vs := PostOrder(root, []);
    WalkIsPostOrder(own, true, root, []);
    forall k | 0 <= k < |vs| ensures own(vs[k]).fault.None? {
      OwnFaults(o, vs[k]);
    }
    RunWithoutFaults(own, vs);
    AtMostOnePerVisit(o, vs);
  }

  lemma {:induction false} AtMostOnePerVisit(o: Oracle, vs: seq<Visit>)
    ensures |EventsOf(v => Own(o, v), vs)| <= |vs|
    decreases |vs|
  {
    if |vs| > 0 {
      OwnFaults(o, vs[0]);
      AtMostOnePerVisit(o, vs[1..]);
    }
  }

  /** Only class types and declarators can end the walk, and only with an
      exception that is neither of the two the visitor catches. */
  lemma OwnFaults(o: Oracle, v: Visit)
    ensures Own(o, v).fault.Some? ==>
      (v.node.kind.ClassOrInterfaceType? && o.typeOf(v.node.id).Threw?) ||
      (v.node.kind.VariableDeclarator? && !v.node.kind.primitive && o.declaredType(v.node.id).Threw?)
    ensures |Own(o, v).events| <= 1
  {
  }
}
