/** What `SymbolsExtractVisitor` and `CsvReportVisitor` do alike: the rows for
    a `TypeParameter` and for a `ClassOrInterfaceType`, including the walk up
    the chain of enclosing class types (`getTopLevelClass`) after an
    unresolved symbol. */
module TypeFallback {
  import opened Base
  import opened Syntax
  import opened CsvUtils
  import opened Reports
  import opened Traversal
  import opened Resolution

  predicate Resolves(typeOf: nat -> Resolution<string>, n: Node)
  {
    typeOf(n.id).Resolved?
  }

  /** Every ancestor from index `k` up to the parent is a class type. */
  ghost predicate ChainFrom(anc: seq<Node>, k: nat)
  {
    forall j :: k <= j < |anc| ==> anc[j].kind.ClassOrInterfaceType?
  }

  /** `anc[k]` is the nearest ancestor on the chain of enclosing class types
      that resolves. */
  ghost predicate NearestResolving(typeOf: nat -> Resolution<string>, anc: seq<Node>, k: nat)
  {
    && 0 <= k < |anc|
    && ChainFrom(anc, k)
    && Resolves(typeOf, anc[k])
    && forall j :: k < j < |anc| ==> !Resolves(typeOf, anc[j])
  }

  /** `getTopLevelClass(coit)` with `anc` the type's ancestors, root first: it
      looks at the parent; a class type that resolves is the answer, one that
      does not is climbed past (the recursive call is on the parent, a strict
      ancestor); anything else, or no parent, gives null. */
  function TopLevelClass(typeOf: nat -> Resolution<string>, anc: seq<Node>): (r: Option<Node>)
    ensures r.Some? ==> exists k: nat :: NearestResolving(typeOf, anc, k) && anc[k] == r.value
    ensures r.None? ==> forall k :: 0 <= k < |anc| && ChainFrom(anc, k) ==> !Resolves(typeOf, anc[k])
    decreases |anc|
  {
    if |anc| == 0 then None
    else
      var p := anc[|anc| - 1];
      var up := anc[..|anc| - 1];
      if !p.kind.ClassOrInterfaceType? then
        assert forall k :: 0 <= k < |anc| ==> !ChainFrom(anc, k);
        None
      else if Resolves(typeOf, p) then
        assert NearestResolving(typeOf, anc, |anc| - 1);
        Some(p)
      else
        var r := TopLevelClass(typeOf, up);
        assert forall j :: 0 <= j < |up| ==> up[j] == anc[j];
        if r.Some? then
          assert forall k: nat :: NearestResolving(typeOf, up, k) ==> NearestResolving(typeOf, anc, k);
          r
        else
          assert forall k :: 0 <= k < |up| && ChainFrom(anc, k) ==> ChainFrom(up, k);
          r
  }

  /** `visit(TypeParameter)`: one regular row holding the node's text. */
  function TypeParameterOwn(n: Node): (t: Trace)
    ensures t.fault.None? && |t.events| == 1
    ensures t.events[0] == Regular(StartOf(n), [Text(n.text)])
  {
    Trace([Regular(StartOf(n), [Text(n.text)])], None)
  }

  /** `visit(ClassOrInterfaceType)` after the children. */
  function CoitOwn(typeOf: nat -> Resolution<string>, n: Node, anc: seq<Node>): (t: Trace)
    // an exception other than the two caught ones ends the walk, with no row
    ensures t.fault.Some? <==> typeOf(n.id).Threw?
    ensures t.fault.Some? ==> t.events == [] && t.fault.value == typeOf(n.id).exc
    // otherwise exactly one row, at the type's start
    ensures t.fault.None? ==> |t.events| == 1 && t.events[0].at == StartOf(n)
    ensures t.fault.None? ==> (t.events[0].Regular? <==> typeOf(n.id).Resolved?)
    ensures typeOf(n.id).Resolved? ==> t.events[0].fields == [Text(typeOf(n.id).value)]
    // unsolved: a packages row naming the nearest resolving enclosing type...
    ensures t.fault.None? ==>
      (t.events[0].Package? <==> typeOf(n.id).Unsolved? && exists k :: 0 <= k < |anc| && ChainFrom(anc, k) && Resolves(typeOf, anc[k]))
    ensures t.fault.None? && t.events[0].Package? ==>
      t.events[0].pkg == n.text && exists k: nat :: NearestResolving(typeOf, anc, k) && t.events[0].ofType == anc[k].text
    // ...or else a "Bad symbol" error with the exception's message
    ensures typeOf(n.id).Unsolved? && t.events[0].Error? ==>
      t.events[0] == Error(StartOf(n), "Bad symbol " + n.text, typeOf(n.id).message)
    // unsupported: an error row, no fallback
    ensures typeOf(n.id).Unsupported? ==>
      t.events[0] == Error(StartOf(n), "Unresolvable symbol " + n.text, typeOf(n.id).message)
  {
    var at := StartOf(n);
    match typeOf(n.id)
    case Resolved(q) => Trace([Regular(at, [Text(q)])], None)
    case Unsolved(m) =>
      (match TopLevelClass(typeOf, anc)
       case Some(top) => Trace([Package(at, n.text, top.text)], None)
       case None =>
         Trace([Error(at, "Bad symbol " + n.text, m)], None))
    case Unsupported(m) => Trace([Error(at, "Unresolvable symbol " + n.text, m)], None)
    case Threw(e) => Trace([], Some(e))
  }

  /** The error row for a declarator whose type did not resolve. */
  function DeclaratorFailure(n: Node, r: Resolution<ResolvedType>): (t: Trace)
    requires !r.Resolved?
    ensures r.Threw? <==> t.fault.Some?
    ensures r.Unsolved? ==> t == Trace([Error(StartOf(n), "Unresolved symbol " + n.text, r.message)], None)
    ensures r.Unsupported? ==> t == Trace([Error(StartOf(n), "Unresolvable symbol " + n.text, r.message)], None)
  {
    match r
    case Unsolved(m) => Trace([Error(StartOf(n), "Unresolved symbol " + n.text, m)], None)
    case Unsupported(m) => Trace([Error(StartOf(n), "Unresolvable symbol " + n.text, m)], None)
    case Threw(e) => Trace([], Some(e))
  }
}
