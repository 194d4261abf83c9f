/** `DefinitionExtractVisitor`: one "def" row per class or interface
    declaration, nested declarations first. */
module DefinitionExtractVisitor {
  import opened Base
  import opened Syntax
  import opened Reports
  import opened Traversal
  import DefCsvReport

  /** `visit(ClassOrInterfaceDeclaration)` after the children: one `add`. */
  function Own(v: Visit): (t: Trace)
    ensures t.fault.None?
    ensures v.node.kind.ClassOrInterfaceDeclaration? ==>
      t.events == [DefCsvReport.Add(StartOf(v.node), v.node.kind.simpleName, v.node.kind.fqn)]
    ensures !v.node.kind.ClassOrInterfaceDeclaration? ==> t.events == []
  {
    match v.node.kind
    case ClassOrInterfaceDeclaration(simpleName, fqn) =>
      Trace([DefCsvReport.Add(StartOf(v.node), simpleName, fqn)], None)
    case _ => Empty
  }

  /** The visitor applied to a tree; it has no state of its own, so one shared
      instance serves every file. */
  function Extract(root: Node): Trace
  {
    Walk(Own, false, root, [])
  }

  function Report(root: Node, fakeOutput: string): CsvReport
  {
    CloseReport(EmitAll(DefCsvReport.New(fakeOutput), Extract(root).events))
  }

  /** The class and interface declarations among the visits, in visit order. */
  function Declarations(vs: seq<Visit>): (r: seq<Node>)
    ensures forall k :: 0 <= k < |r| ==> r[k].kind.ClassOrInterfaceDeclaration?
    decreases |vs|
  {
    if |vs| == 0 then []
    else (if vs[0].node.kind.ClassOrInterfaceDeclaration? then [vs[0].node] else []) + Declarations(vs[1..])
  }

  /** The `add` for one declaration. */
  function AddFor(n: Node): Event
    requires n.kind.ClassOrInterfaceDeclaration?
  {
    DefCsvReport.Add(StartOf(n), n.kind.simpleName, n.kind.fqn)
  }

  lemma {:induction false} EventsAreAdds(vs: seq<Visit>)
    ensures var ds := Declarations(vs);
      EventsOf(Own, vs) == seq(|ds|, k requires 0 <= k < |ds| => AddFor(ds[k]))
    decreases |vs|
  {
    if |vs| > 0 {
      EventsAreAdds(vs[1..]);
    }
  }

  /** Exactly one row per declaration, in post-order (nested declarations
      before the ones enclosing them), and nothing for any other node; the walk
      never ends early, since the visitor does not throw. */
  lemma ExtractRows(root: Node)
    ensures Extract(root).fault.None?
    ensures var ds := Declarations(PostOrder(root, []));
      && |Extract(root).events| == |ds|
      && forall k :: 0 <= k < |ds| ==> Extract(root).events[k] == AddFor(ds[k])
  {
    WalkIsPostOrder(Own, false, root, []);
    RunWithoutFaults(Own, PostOrder(root, []));
    EventsAreAdds(PostOrder(root, []));
  }
}
