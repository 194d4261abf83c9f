/** `MethodCsvReport`: the "lines" report of resolved calls and receivers. */
module MethodCsvReport {
  import opened Base
  import opened Strings
  import opened Syntax
  import opened JpUtils
  import opened CsvUtils
  import opened Reports

  const What: string := "lines"
  const Header: seq<string> := ["line", "col", "owner", "method", "argTypes", "refLine", "refCol"]

  function New(fakeOutput: string): (r: CsvReport)
    ensures r == NewCsvReport(fakeOutput, What, Header)
  {
    NewCsvReport(fakeOutput, What, Header)
  }

  /** The report's three files. */
  lemma Files(fakeOutput: string)
    ensures RegularFile(New(fakeOutput)) == fakeOutput + ".lines.csv"
    ensures PackagesFile(New(fakeOutput)) == fakeOutput + ".lines.packages.csv"
    ensures ErrorsFile(New(fakeOutput)) == fakeOutput + ".lines.errors.csv"
  {
  }

  /** `add(node, declaration)`: a receiver's type, the owner column filled and
      the four others left empty. */
  function ScopeEvent(at: Pos, qualifiedName: string): (e: Event)
    ensures e.Regular? && e.at == at
    ensures |RowOf(e)| == |Header|
    ensures RowOf(e) == [IntToString(at.line), IntToString(at.column), qualifiedName, "", "", "", ""]
  {
    Regular(at, [Text(qualifiedName), Text(""), Text(""), Text(""), Text("")])
  }

  /** `add(node, name, params, owner)`: owner, method name, the parameter
      names joined with ",", and where the name starts. */
  function MethodEvent(at: Pos, owner: string, name: SimpleName, params: seq<string>): (e: Event)
    ensures e.Regular? && e.at == at
    ensures |RowOf(e)| == |Header|
    ensures RowOf(e) == [IntToString(at.line), IntToString(at.column), owner, name.id,
                         Join(",", params), IntToString(name.pos.line), IntToString(name.pos.column)]
  {
    Regular(at, [Text(owner), Text(name.id), Text(Join(",", params)), Num(name.pos.line), Num(name.pos.column)])
  }

  /** Evaluating a list of values in order, as a stream collected to a list:
      the first failure is what is thrown. */
  function Collect(qs: seq<Outcome<string>>): (r: Outcome<seq<string>>)
    ensures r.Ok? <==> forall k :: 0 <= k < |qs| ==> qs[k].Ok?
    ensures r.Ok? ==> |r.value| == |qs| && forall k :: 0 <= k < |qs| ==> r.value[k] == qs[k].value
    ensures r.Fail? ==> exists k :: 0 <= k < |qs| && qs[k] == Fail(r.exc) && forall j :: 0 <= j < k ==> qs[j].Ok?
    decreases |qs|
  {
    if |qs| == 0 then Ok([])
    else match qs[0]
      case Fail(e) => Fail(e)
      case Ok(v) =>
        var rest := Collect(qs[1..]);
        assert forall k :: 1 <= k < |qs| ==> qs[k] == qs[1..][k - 1];
        match rest
        case Fail(e) =>
          var k' :| 0 <= k' < |qs[1..]| && qs[1..][k'] == Fail(e) && forall j :: 0 <= j < k' ==> qs[1..][j].Ok?;
          assert qs[k' + 1] == Fail(e);
          Fail(e)
        case Ok(vs) => Ok([v] + vs)
  }

  /** `add(node, owner, wrappedNode)`: the parameters' names first, then the
      owner's fully qualified name through `Optional.get`. */
  function AddDeclaration(at: Pos, ownerFqn: Option<string>, decl: MethodDecl): (r: Outcome<Event>)
    ensures r.Ok? <==> ownerFqn.Some? && Collect(ParamNames(decl.params)).Ok?
    ensures r.Ok? ==> r.value == MethodEvent(at, ownerFqn.value, decl.name, Collect(ParamNames(decl.params)).value)
    ensures Collect(ParamNames(decl.params)).Fail? ==> r == Fail(Collect(ParamNames(decl.params)).exc)
    ensures Collect(ParamNames(decl.params)).Ok? && ownerFqn.None? ==>
      r == Fail(Exc(NoSuchElement, Some(NoValuePresent)))
  {
    match Collect(ParamNames(decl.params))
    case Fail(e) => Fail(e)
    case Ok(params) =>
      match ownerFqn
      case None => Fail(Exc(NoSuchElement, Some(NoValuePresent)))
      case Some(owner) => Ok(MethodEvent(at, owner, decl.name, params))
  }

  /** `getQualifiedName` of each parameter, in declaration order. */
  function ParamNames(ps: seq<ParamType>): (r: seq<Outcome<string>>)
    ensures |r| == |ps| && forall k :: 0 <= k < |ps| ==> r[k] == GetQualifiedName(ps[k])
  {
    seq(|ps|, k requires 0 <= k < |ps| => GetQualifiedName(ps[k]))
  }

  /** The argument cell's entry for a parameter whose name computes: a
      primitive's text, an array's element type and "[]", a class type's
      resolved name. */
  function ParamText(p: ParamType): string
  {
    match p
    case PrimitiveParam(t) => t
    case ArrayParam(e) => e + "[]"
    case ClassParam(res) => if res.Ok? then res.value else ""
    case OtherParam(_) => ""
  }

  /** A method whose parameters are all primitive, arrays or resolving class
      types gets its row when its owner has a name, and the argument column
      lists the parameters' names in order. */
  lemma ParamsRow(at: Pos, owner: string, decl: MethodDecl)
    requires forall k :: 0 <= k < |decl.params| ==>
      !decl.params[k].OtherParam? && (decl.params[k].ClassParam? ==> decl.params[k].resolved.Ok?)
    ensures var r := AddDeclaration(at, Some(owner), decl);
      && r.Ok?
      && RowOf(r.value)[4] == Join(",", seq(|decl.params|, k requires 0 <= k < |decl.params| => ParamText(decl.params[k])))
  {
    var names := seq(|decl.params|, k requires 0 <= k < |decl.params| => ParamText(decl.params[k]));
    assert Collect(ParamNames(decl.params)).value == names;
  }

  /** The first parameter whose name does not compute decides: its exception
      (the class type's resolution failure, or the failed cast to a class
      type) is what `add` throws, before the owner is looked at. */
  lemma FirstBadParamFails(at: Pos, ownerFqn: Option<string>, decl: MethodDecl, k: nat)
    requires k < |decl.params| && GetQualifiedName(decl.params[k]).Fail?
    requires forall j :: 0 <= j < k ==> GetQualifiedName(decl.params[j]).Ok?
    ensures AddDeclaration(at, ownerFqn, decl) == Fail(GetQualifiedName(decl.params[k]).exc)
    ensures decl.params[k].ClassParam? ==> AddDeclaration(at, ownerFqn, decl) == Fail(decl.params[k].resolved.exc)
    ensures decl.params[k].OtherParam? ==> AddDeclaration(at, ownerFqn, decl) == Fail(decl.params[k].failure)
  {
    var qs := ParamNames(decl.params);
    assert qs[k].Fail?;
    var c := Collect(qs);
    var k' :| 0 <= k' < |qs| && qs[k'] == Fail(c.exc) && forall j :: 0 <= j < k' ==> qs[j].Ok?;
    assert k' == k;
  }
}

/** `DefCsvReport`: the "def" report of declared classes and interfaces. */
module DefCsvReport {
  import opened Base
  import opened Strings
  import opened Syntax
  import opened CsvUtils
  import opened Reports

  const What: string := "def"
  const Header: seq<string> := ["line", "col", "type"]

  function New(fakeOutput: string): (r: CsvReport)
    ensures r == NewCsvReport(fakeOutput, What, Header)
  {
    NewCsvReport(fakeOutput, What, Header)
  }

  /** `add(owner)`: the fully qualified name, or, when `Optional.get` throws,
      an error row with the simple name and the exception's message. */
  function Add(at: Pos, simpleName: string, fqn: Option<string>): (e: Event)
    ensures e.at == at
    ensures e.Regular? <==> fqn.Some?
    ensures e.Regular? ==> e.fields == [Text(fqn.value)] && |RowOf(e)| == |Header|
    ensures e.Error? <==> fqn.None?
    ensures e.Error? ==> e.node == simpleName && e.error == Some(NoValuePresent)
  {
    match fqn
    case Some(q) => Regular(at, [Text(q)])
    case None => Error(at, simpleName, Some(NoValuePresent))
  }

  /** One `add` puts exactly one row in exactly one of the report's files,
      and none in the packages file. */
  lemma AddWritesOneRow(fakeOutput: string, at: Pos, simpleName: string, fqn: Option<string>)
    ensures var r := EmitAll(New(fakeOutput), [Add(at, simpleName, fqn)]);
      && r.packages == Unopened
      && (fqn.Some? ==>
            && r.errors == Unopened && r.regular.Opened?
            && r.regular.w.lines == [Header, [IntToString(at.line), IntToString(at.column), fqn.value]])
      && (fqn.None? ==>
            && r.regular == Unopened && r.errors.Opened?
            && r.errors.w.lines == [ErrorHeader, [IntToString(at.line), IntToString(at.column), simpleName, NoValuePresent]])
  {
    var e := Add(at, simpleName, fqn);
    EmitAllFresh(fakeOutput, What, Header, [e]);
    assert [e][1..] == [];
    if fqn.Some? {
      DefRow(at, fqn.value);
      assert RegularRows([e]) == [RowOf(e)];
    } else {
      ErrorRow(at, simpleName);
      assert ErrorRows([e]) == [RowOf(e)];
    }
  }

  lemma DefRow(at: Pos, q: string)
    ensures RowOf(Regular(at, [Text(q)])) == [IntToString(at.line), IntToString(at.column), q]
  {
    assert RowCells(at, [Text(q)]) == [Num(at.line), Num(at.column), Text(q)];
  }

  lemma ErrorRow(at: Pos, simpleName: string)
    ensures RowOf(Error(at, simpleName, Some(NoValuePresent))) ==
      [IntToString(at.line), IntToString(at.column), simpleName, NoValuePresent]
  {
    assert RowCells(at, [Text(simpleName), Text(NoValuePresent)]) ==
      [Num(at.line), Num(at.column), Text(simpleName), Text(NoValuePresent)];
  }
}

/** `TypesCsvReport`: the "types" report of the per-file collector. */
module TypesCsvReport {
  import opened Reports

  const What: string := "types"
  const Header: seq<string> := ["line", "col", "type"]

  function New(fakeOutput: string): (r: CsvReport)
    ensures r == NewCsvReport(fakeOutput, What, Header)
  {
    NewCsvReport(fakeOutput, What, Header)
  }

  /** Regular rows go to base.types.csv, package rows to
      base.types.packages.csv, error rows to base.types.errors.csv. */
  lemma Files(fakeOutput: string)
    ensures RegularFile(New(fakeOutput)) == fakeOutput + ".types.csv"
    ensures PackagesFile(New(fakeOutput)) == fakeOutput + ".types.packages.csv"
    ensures ErrorsFile(New(fakeOutput)) == fakeOutput + ".types.errors.csv"
    ensures New(fakeOutput).header == ["line", "col", "type"]
  {
  }
}
