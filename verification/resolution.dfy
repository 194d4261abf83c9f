/** What the symbol solver answers about nodes, as oracles keyed by node
    identity. The solver's own algorithms are not part of this model; only the
    shapes of their answers are, including the exceptions the visitors tell
    apart. */
module Resolution {
  import opened Base
  import opened Syntax

  /** The outcome of a `resolve()` call: a value, an
      `UnsolvedSymbolException`, an `UnsupportedOperationException` (each with
      its possibly null message), or any other exception. */
  datatype Resolution<+T> =
    | Resolved(value: T)
    | Unsolved(message: Option<string>)
    | Unsupported(message: Option<string>)
    | Threw(exc: Exc)

  /** The kinds of `ResolvedType` that `handleResolvedType` tells apart. */
  datatype ResolvedType =
    | PrimitiveT
    | ReferenceT(qualifiedName: string)     // a `ReferenceTypeImpl`
    | ArrayT(component: ResolvedType)
    | TypeVariableT
    | OtherT(className: string)             // any other kind, by runtime class name

  /** What `MethodCallExpr.resolve()` gives: an exception, a declaration from
      source (with the declaration it wraps), a declaration from reflection
      (each parameter's qualified name and the declaring type's, as computing
      them would turn out), or some other implementation class. */
  datatype MethodResolution =
    | MethodThrows(exc: Exc)
    | SourceMethod(decl: MethodDecl)
    | ReflectionMethod(params: seq<Outcome<string>>, declaringType: Outcome<string>)
    | OtherMethod(className: string)

  /** The answers for one tree, by node id:
      - `typeOf`: a `ClassOrInterfaceType`'s resolved qualified name;
      - `declaredType`: a `VariableDeclarator`'s declared type, resolved;
      - `methodOf`: a call's resolved method;
      - `thisType`: a `this` receiver's declaring type's qualified name;
      - `classLiteralType` / `expressionType`: a class-literal receiver's type,
        or any other receiver's calculated type, as a reference type, with its
        type declaration's qualified name when it has one. */
  datatype Oracle = Oracle(
    typeOf: nat -> Resolution<string>,
    declaredType: nat -> Resolution<ResolvedType>,
    methodOf: nat -> MethodResolution,
    thisType: nat -> Outcome<string>,
    classLiteralType: nat -> Outcome<Option<string>>,
    expressionType: nat -> Outcome<Option<string>>)
}
