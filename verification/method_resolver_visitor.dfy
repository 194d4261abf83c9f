/** `MethodResolverVisitor`: for every method call, a row for the method it
    resolves to and a row for its receiver's type, each failure caught and
    turned into an error row of its own. */
module MethodResolverVisitor {
  import opened Base
  import opened Strings
  import opened Syntax
  import opened JpUtils
  import opened CsvUtils
  import opened Reports
  import opened Traversal
  import opened Resolution
  import opened MethodCsvReport

  const ReflectionDeclClass: string := "com.github.javaparser.symbolsolver.reflectionmodel.ReflectionMethodDeclaration"
  const SourceDeclClass: string := "com.github.javaparser.symbolsolver.javaparsermodel.declarations.JavaParserMethodDeclaration"

  /** The `ClassCastException` of casting an object of class `cls` to a
      source method declaration. */
  function CastFailure(cls: string): Exc
  {
    Exc(ClassCast, Some("class " + cls + " cannot be cast to class " + SourceDeclClass))
  }

  /** `getMessage(ex)`: the message, or the exception's class followed by
      " had no message" when it is null. */
  function GetMessage(e: Exc): (m: string)
    ensures e.message.Some? ==> m == e.message.value
    ensures e.message.None? ==> m == "class " + e.cls + " had no message" && EndsWith(m, " had no message")
  {
    match e.message
    case Some(m) => m
    case None => "class " + e.cls + " had no message"
  }

  /** `handle(n, arg, wrappedNode)`: the declaration must sit in a class,
      interface or enum; the row is placed at the call's name. */
  function HandleSource(call: SimpleName, decl: MethodDecl): (r: Outcome<Event>)
    ensures decl.parent.NoParent? ==> r == Fail(Exc(IllegalArgument, Some("No parent found!")))
    ensures decl.parent.OtherParent? ==> r == Fail(Exc(IllegalState, Some("")))
    ensures decl.parent.ClassOrInterfaceParent? || decl.parent.EnumParent? ==>
      r == AddDeclaration(call.pos, decl.parent.fqn, decl)
    ensures r.Ok? ==> r.value.Regular? && r.value.at == call.pos
  {
    match decl.parent
    case NoParent => Fail(Exc(IllegalArgument, Some("No parent found!")))
    case ClassOrInterfaceParent(fqn) => AddDeclaration(call.pos, fqn, decl)
    case EnumParent(fqn) => AddDeclaration(call.pos, fqn, decl)
    case OtherParent => Fail(Exc(IllegalState, Some("")))
  }

  /** `handle(n, arg, rmd)`: each parameter's qualified name in order, then the
      declaring type's; the row is placed at, and refers to, the call's name. */
  function HandleReflection(call: SimpleName, params: seq<Outcome<string>>, declaringType: Outcome<string>): (r: Outcome<Event>)
    ensures r.Ok? <==> Collect(params).Ok? && declaringType.Ok?
    ensures r.Ok? ==> r.value == MethodEvent(call.pos, declaringType.value, call, Collect(params).value)
    ensures Collect(params).Fail? ==> r == Fail(Collect(params).exc)
  {
    match Collect(params)
    case Fail(e) => Fail(e)
    case Ok(args) =>
      match declaringType
      case Fail(e) => Fail(e)
      case Ok(q) => Ok(MethodEvent(call.pos, q, call, args))
  }

  /** The rows written and the exception thrown by one attempt. */
  datatype Attempt = Attempt(written: seq<Event>, thrown: Option<Exc>)

  /** `n.resolve()` then `handle(n, arg, resolve)` as written: after handling
      a reflection declaration it goes on to cast that declaration to a source
      declaration, which always throws. */
  function ResolveCallAsWritten(call: SimpleName, m: MethodResolution): (a: Attempt)
    ensures m.ReflectionMethod? && HandleReflection(call, m.params, m.declaringType).Ok? ==>
      a == Attempt([HandleReflection(call, m.params, m.declaringType).value], Some(CastFailure(ReflectionDeclClass)))
    ensures !(m.ReflectionMethod? && HandleReflection(call, m.params, m.declaringType).Ok?) ==>
      a == (match ResolveCall(call, m) case Ok(row) => Attempt([row], None) case Fail(e) => Attempt([], Some(e)))
  {
    match m
    case MethodThrows(e) => Attempt([], Some(e))
    case SourceMethod(d) =>
      (match HandleSource(call, d)
       case Ok(row) => Attempt([row], None)
       case Fail(e) => Attempt([], Some(e)))
    case ReflectionMethod(ps, dt) =>
      (match HandleReflection(call, ps, dt)
       case Ok(row) => Attempt([row], Some(CastFailure(ReflectionDeclClass)))
       case Fail(e) => Attempt([], Some(e)))
    case OtherMethod(cls) => Attempt([], Some(CastFailure(cls)))
  }

  /** The same with the evident intent: a reflection declaration is handled
      on its own and the cast is only made for other declarations. */
  function ResolveCall(call: SimpleName, m: MethodResolution): (r: Outcome<Event>)
    ensures m.MethodThrows? ==> r == Fail(m.exc)
    ensures m.SourceMethod? ==> r == HandleSource(call, m.decl)
    ensures m.ReflectionMethod? ==> r == HandleReflection(call, m.params, m.declaringType)
    ensures m.OtherMethod? ==> r == Fail(CastFailure(m.className))
  {
    match m
    case MethodThrows(e) => Fail(e)
    case SourceMethod(d) => HandleSource(call, d)
    case ReflectionMethod(ps, dt) => HandleReflection(call, ps, dt)
    case OtherMethod(cls) => Fail(CastFailure(cls))
  }

  /** The `catch` around resolving and handling: whatever was thrown becomes
      one "Cannot resolve" error row at the call. */
  function CatchCall(at: Pos, text: string, a: Attempt): (es: seq<Event>)
    ensures a.thrown.None? ==> es == a.written
    ensures a.thrown.Some? ==> es == a.written + [Error(at, "Cannot resolve " + text, Some(GetMessage(a.thrown.value)))]
  {
    a.written + (if a.thrown.Some? then [Error(at, "Cannot resolve " + text, Some(GetMessage(a.thrown.value)))] else [])
  }

  /** The corrected call handling writes exactly one row for a call: its
      method row, or the error row of what was thrown. */
  function CallEvent(n: Node, call: SimpleName, m: MethodResolution): (e: Event)
    ensures ResolveCall(call, m).Ok? ==> e == ResolveCall(call, m).value
    ensures ResolveCall(call, m).Fail? ==>
      e == Error(StartOf(n), "Cannot resolve " + n.text, Some(GetMessage(ResolveCall(call, m).exc)))
  {
    match ResolveCall(call, m)
    case Ok(row) => row
    case Fail(x) => Error(StartOf(n), "Cannot resolve " + n.text, Some(GetMessage(x)))
  }

  /** Where the two versions differ: as written, a reflection declaration whose
      names all compute gives its method row and then a "Cannot resolve" error
      row for the failed cast. */
  lemma ReflectionFallsThrough(n: Node, call: SimpleName, ps: seq<Outcome<string>>, dt: Outcome<string>)
    requires Collect(ps).Ok? && dt.Ok?
    ensures var es := CatchCall(StartOf(n), n.text, ResolveCallAsWritten(call, ReflectionMethod(ps, dt)));
      && |es| == 2
      && es[0] == MethodEvent(call.pos, dt.value, call, Collect(ps).value)
      && es[1] == Error(StartOf(n), "Cannot resolve " + n.text,
                        Some("class " + ReflectionDeclClass + " cannot be cast to class " + SourceDeclClass))
    ensures [CallEvent(n, call, ReflectionMethod(ps, dt))] == [MethodEvent(call.pos, dt.value, call, Collect(ps).value)]
  {
  }

  /** A concrete instance: a call `list.size()` at 3:5 resolved through
      reflection to `java.util.List.size()`, which has no parameters. */
  lemma ReflectionCallCounterexample()
    ensures var call := SimpleName("size", Pos(3, 10));
      var n := Node(7, MethodCallExpr(call, None), "list.size()", Some(Range(Pos(3, 5), Pos(3, 15))), false, [], []);
      var es := CatchCall(StartOf(n), n.text, ResolveCallAsWritten(call, ReflectionMethod([], Ok("java.util.List"))));
      && |es| == 2 && es[0].Regular? && es[1].Error?
      && RowOf(es[0]) == ["3", "10", "java.util.List", "size", "", "3", "10"]
  {
    var call := SimpleName("size", Pos(3, 10));
    var e := MethodEvent(Pos(3, 10), "java.util.List", call, []);
    assert Join(",", []) == "";
    assert IntToString(3) == "3" && IntToString(10) == "10";
    assert RowOf(e) == ["3", "10", "java.util.List", "size", "", "3", "10"];
  }

  /** Everywhere else the two versions write the same rows. */
  lemma AgreeElsewhere(n: Node, call: SimpleName, m: MethodResolution)
    requires !(m.ReflectionMethod? && Collect(m.params).Ok? && m.declaringType.Ok?)
    ensures CatchCall(StartOf(n), n.text, ResolveCallAsWritten(call, m)) == [CallEvent(n, call, m)]
  {
  }

  /** `getTypeDeclaration(expression)` for a receiver: `this` through its own
      resolution, a class literal through its type, anything else through its
      calculated type; a reference type without a declaration throws
      `IllegalArgumentException`. */
  function ReceiverType(o: Oracle, recv: Node): (r: Outcome<string>)
    ensures recv.kind.ThisExpr? ==> r == o.thisType(recv.id)
    ensures recv.kind.ClassExpr? ==> r == Declared(o.classLiteralType(recv.id), recv.text)
    ensures !recv.kind.ThisExpr? && !recv.kind.ClassExpr? ==> r == Declared(o.expressionType(recv.id), recv.text)
  {
    match recv.kind
    case ThisExpr => o.thisType(recv.id)
    case ClassExpr => Declared(o.classLiteralType(recv.id), recv.text)
    case _ => Declared(o.expressionType(recv.id), recv.text)
  }

  /** `getTypeDeclaration().orElseThrow(...)`. */
  function Declared(t: Outcome<Option<string>>, text: string): (r: Outcome<string>)
    ensures t.Ok? && t.value.Some? <==> r.Ok?
    ensures r.Ok? ==> r.value == t.value.value
    ensures t.Fail? ==> r.Fail? && r.exc == t.exc
    ensures t == Ok(None) ==> r == Fail(Exc(IllegalArgument, Some("Missing type declaration for " + text)))
  {
    match t
    case Fail(e) => Fail(e)
    case Ok(None) => Fail(Exc(IllegalArgument, Some("Missing type declaration for " + text)))
    case Ok(Some(q)) => Ok(q)
  }

  /** The receiver's row: its type's qualified name, or the error row for it,
      both at the receiver's start. */
  function ScopeRow(o: Oracle, recv: Node): (e: Event)
    ensures e.at == StartOf(recv)
    ensures e.Regular? <==> ReceiverType(o, recv).Ok?
    ensures e.Regular? ==> e == ScopeEvent(StartOf(recv), ReceiverType(o, recv).value)
    ensures e.Error? ==> e.node == "Cannot resolve " + recv.text && e.error == Some(GetMessage(ReceiverType(o, recv).exc))
  {
    match ReceiverType(o, recv)
    case Ok(q) => ScopeEvent(StartOf(recv), q)
    case Fail(x) => Error(StartOf(recv), "Cannot resolve " + recv.text, Some(GetMessage(x)))
  }

  /** The receiver of a call, when there is one. */
  function Receiver(n: Node): Option<Node>
  {
    if n.kind.MethodCallExpr? && n.kind.scope.Some? && n.kind.scope.value < |n.children|
    then Some(n.children[n.kind.scope.value]) else None
  }

  /** Whether the code as written falls through after a reflection
      declaration: the declaration's names all compute, so its row is written
      and the cast that follows throws. */
  predicate FallsThrough(m: MethodResolution)
  {
    m.ReflectionMethod? && Collect(m.params).Ok? && m.declaringType.Ok?
  }

  /** The error row the failed cast adds after a reflection call's row. */
  function CastErrorRow(n: Node): Event
  {
    Error(StartOf(n), "Cannot resolve " + n.text,
          Some("class " + ReflectionDeclClass + " cannot be cast to class " + SourceDeclClass))
  }

  /** The rows of the call itself as written: the corrected row, followed by
      the cast's error row exactly when the call falls through. */
  function CallRows(n: Node, call: SimpleName, m: MethodResolution): (es: seq<Event>)
    ensures |es| == (if FallsThrough(m) then 2 else 1)
    ensures es[0] == CallEvent(n, call, m)
    ensures FallsThrough(m) ==> es[1] == CastErrorRow(n)
  {
    if FallsThrough(m) then
      ReflectionFallsThrough(n, call, m.params, m.declaringType);
      CatchCall(StartOf(n), n.text, ResolveCallAsWritten(call, m))
    else
      AgreeElsewhere(n, call, m);
      CatchCall(StartOf(n), n.text, ResolveCallAsWritten(call, m))
  }

  /** `visit(MethodCallExpr)` after the children: the call's rows, then the
      receiver's row. Nothing escapes: every failure is caught separately. */
  function Own(o: Oracle, v: Visit): (t: Trace)
    ensures t.fault.None?
    ensures !v.node.kind.MethodCallExpr? ==> t.events == []
    ensures v.node.kind.MethodCallExpr? ==>
      var m := o.methodOf(v.node.id);
      && |t.events| == (if FallsThrough(m) then 2 else 1) + (if Receiver(v.node).Some? then 1 else 0)
      && t.events[0] == CallEvent(v.node, v.node.kind.name, m)
      && (FallsThrough(m) ==> t.events[1] == CastErrorRow(v.node))
      && (Receiver(v.node).Some? ==> t.events[|t.events| - 1] == ScopeRow(o, Receiver(v.node).value))
  {
    var n := v.node;
    match n.kind
    case MethodCallExpr(name, _) =>
      var callRows := CallRows(n, name, o.methodOf(n.id));
      (match Receiver(n)
       case Some(recv) => Trace(callRows + [ScopeRow(o, recv)], None)
       case None => Trace(callRows, None))
    case _ => Empty
  }

  /** The visitor does not override `visit(UnparsableStmt)`. */
  function Resolve(o: Oracle, root: Node): Trace
  {
    Walk(v => Own(o, v), false, root, [])
  }

  function Report(o: Oracle, root: Node, fakeOutput: string): CsvReport
  {
    CloseReport(EmitAll(New(fakeOutput), Resolve(o, root).events))
  }

  /** Per-call error isolation: the walk never ends early, and its rows are
      each call's rows, children's calls first. */
  lemma ResolveIsolated(o: Oracle, root: Node)
    ensures Resolve(o, root).fault.None?
    ensures Resolve(o, root).events == EventsOf(v => Own(o, v), PostOrder(root, []))
  {
    var own := v => Own(o, v);
    WalkIsPostOrder(own, false, root, []);
    RunWithoutFaults(own, PostOrder(root, []));
  }

  /** The visit with the evident intent: exactly one row for the call. */
  function OwnCorrected(o: Oracle, v: Visit): (t: Trace)
    ensures t.fault.None?
    ensures !v.node.kind.MethodCallExpr? ==> t.events == []
    ensures v.node.kind.MethodCallExpr? ==>
      && |t.events| == (if Receiver(v.node).Some? then 2 else 1)
      && t.events[0] == CallEvent(v.node, v.node.kind.name, o.methodOf(v.node.id))
      && (Receiver(v.node).Some? ==> t.events[1] == ScopeRow(o, Receiver(v.node).value))
  {
    var n := v.node;
    match n.kind
    case MethodCallExpr(name, _) =>
      var callRow := CallEvent(n, name, o.methodOf(n.id));
      (match Receiver(n)
       case Some(recv) => Trace([callRow, ScopeRow(o, recv)], None)
       case None => Trace([callRow], None))
    case _ => Empty
  }

  /** The walk with the corrected visit. */
  function ResolveCorrected(o: Oracle, root: Node): Trace
  {
    Walk(v => OwnCorrected(o, v), false, root, [])
  }

  /** Some call of the visits falls through as written. */
  predicate AnyFallsThrough(o: Oracle, vs: seq<Visit>)
  {
    exists k :: 0 <= k < |vs| && FallsThroughAt(o, vs[k])
  }

  /** The two walks write the same rows exactly when no call of the tree is
      resolved through a reflection declaration whose names all compute;
      otherwise the code as written writes more. */
  lemma AsWrittenAgreesWithoutReflection(o: Oracle, root: Node)
    ensures ResolveCorrected(o, root).fault.None?
    ensures !AnyFallsThrough(o, PostOrder(root, [])) ==> Resolve(o, root) == ResolveCorrected(o, root)
    ensures AnyFallsThrough(o, PostOrder(root, [])) ==>
      |Resolve(o, root).events| > |ResolveCorrected(o, root).events|
  {
    var vs := PostOrder(root, []);
    ResolveIsolated(o, root);
    WalkIsPostOrder(v => OwnCorrected(o, v), false, root, []);
    RunWithoutFaults(v => OwnCorrected(o, v), vs);
    EventsCompare(o, vs);
  }

  lemma {:induction false} EventsCompare(o: Oracle, vs: seq<Visit>)
    ensures |EventsOf(v => Own(o, v), vs)| >= |EventsOf(v => OwnCorrected(o, v), vs)|
    ensures !AnyFallsThrough(o, vs) ==> EventsOf(v => Own(o, v), vs) == EventsOf(v => OwnCorrected(o, v), vs)
    ensures AnyFallsThrough(o, vs) ==> |EventsOf(v => Own(o, v), vs)| > |EventsOf(v => OwnCorrected(o, v), vs)|
    decreases |vs|
  {
    if |vs| > 0 {
      EventsCompare(o, vs[1..]);
      OwnCompare(o, vs[0]);
      AnyFallsThroughCons(o, vs);
    }
  }

  /** The visit is of a call that falls through as written. */
  predicate FallsThroughAt(o: Oracle, v: Visit)
  {
    v.node.kind.MethodCallExpr? && FallsThrough(o.methodOf(v.node.id))
  }

  lemma AnyFallsThroughCons(o: Oracle, vs: seq<Visit>)
    requires |vs| > 0
    ensures AnyFallsThrough(o, vs) <==> FallsThroughAt(o, vs[0]) || AnyFallsThrough(o, vs[1..])
  {
    assert forall k :: 1 <= k < |vs| ==> vs[k] == vs[1..][k - 1];
    if AnyFallsThrough(o, vs[1..]) {
      var k :| 0 <= k < |vs[1..]| && FallsThroughAt(o, vs[1..][k]);
      assert vs[k + 1] == vs[1..][k];
    }
  }

  /** One visit: as written it writes the corrected rows, and one more
      exactly when the call falls through. */
  lemma OwnCompare(o: Oracle, v: Visit)
    ensures !FallsThroughAt(o, v) ==> Own(o, v) == OwnCorrected(o, v)
    ensures FallsThroughAt(o, v) ==> |Own(o, v).events| == |OwnCorrected(o, v).events| + 1
  {
    if v.node.kind.MethodCallExpr? {
      var n := v.node;
      var es := CallRows(n, n.kind.name, o.methodOf(n.id));
      if !FallsThrough(o.methodOf(n.id)) {
        assert es == [CallEvent(n, n.kind.name, o.methodOf(n.id))];
      }
    }
  }

  /** A source method whose first failing parameter name fails: the call's
      only row is the "Cannot resolve" error carrying that parameter's
      message. */
  lemma BadParamErrorRow(n: Node, call: SimpleName, d: MethodDecl, k: nat)
    requires d.parent.ClassOrInterfaceParent? || d.parent.EnumParent?
    requires k < |d.params| && GetQualifiedName(d.params[k]).Fail?
    requires forall j :: 0 <= j < k ==> GetQualifiedName(d.params[j]).Ok?
    ensures CallRows(n, call, SourceMethod(d)) ==
      [Error(StartOf(n), "Cannot resolve " + n.text, Some(GetMessage(GetQualifiedName(d.params[k]).exc)))]
  {
    FirstBadParamFails(call.pos, d.parent.fqn, d, k);
  }
}
