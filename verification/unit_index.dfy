/** `JavaParserStuffImpl`: the parsed compilation units of a whole source
    tree, indexed by file path and by the fully qualified names of their
    top-level types. */
module JavaParserStuffImpl {
  import opened Base
  import opened Syntax
  import opened JpUtils

  datatype Index = Index(byPath: map<string, Unit>, byType: map<string, Unit>)

  const MissingFqn: Exc := Exc(IllegalArgument, Some("Missing fully qualified name!"))

  /** `ensureNotAlreadyMapped`: the message names the type, the path being
      indexed and the path of the unit that already held the name, which is
      itself looked up with `findFilePath`. */
  function AlreadyMapped(q: string, path: string, previous: Unit): (r: Exc)
    ensures previous.storage.Some? ==>
      r == Exc(IllegalState, Some(q + " mapped by " + path + " was already mapped in " + previous.storage.value))
    ensures previous.storage.None? ==> r == FindPath(previous).exc
  {
    match FindPath(previous)
    case Fail(e) => e
    case Ok(prevPath) => Exc(IllegalState, Some(q + " mapped by " + path + " was already mapped in " + prevPath))
  }

  /** The inner loop over `getTypes()`: each name is put with the unit, and a
      missing name or one already present ends construction. */
  function AddTypes(byType: map<string, Unit>, path: string, u: Unit, ts: seq<Option<string>>):
    (r: Outcome<map<string, Unit>>)
    ensures r.Ok? <==>
      (forall i :: 0 <= i < |ts| ==> ts[i].Some? && ts[i].value !in byType) &&
      (forall i, j :: 0 <= i < j < |ts| ==> ts[i] != ts[j])
    ensures r.Ok? ==> forall q :: q in r.value <==> q in byType || Some(q) in ts
    ensures r.Ok? ==> forall q :: q in byType ==> r.value[q] == byType[q]
    ensures r.Ok? ==> forall q :: Some(q) in ts ==> r.value[q] == u
    decreases |ts|
  {
    if |ts| == 0 then Ok(byType)
    else
      match ts[0]
      case None => Fail(MissingFqn)
      case Some(q) =>
        if q in byType then Fail(AlreadyMapped(q, path, byType[q]))
        else
          var r := AddTypes(byType[q := u], path, u, ts[1..]);
          assert forall i :: 1 <= i < |ts| ==> ts[i] == ts[1..][i - 1];
          assert forall x :: x in ts <==> x == ts[0] || x in ts[1..];
          r
  }

  /** One iteration of the constructor's loop. */
  function AddUnit(idx: Index, u: Unit): (r: Outcome<Index>)
    ensures u.storage.None? ==> r == Fail(FindPath(u).exc)
    ensures u.storage.Some? ==> match AddTypes(idx.byType, u.storage.value, u, u.types)
      case Fail(e) => r == Fail(e)
      case Ok(m) => r == Ok(Index(idx.byPath[u.storage.value := u], m))
  {
    match FindPath(u)
    case Fail(e) => Fail(e)
    case Ok(path) =>
      match AddTypes(idx.byType, path, u, u.types)
      case Fail(e) => Fail(e)
      case Ok(m) => Ok(Index(idx.byPath[path := u], m))
  }

  /** The constructor: the units in order; the first failure ends it. */
  function Build(units: seq<Unit>): (r: Outcome<Index>)
    decreases |units|
  {
    if |units| == 0 then Ok(Index(map[], map[]))
    else
      match Build(units[..|units| - 1])
      case Fail(e) => Fail(e)
      case Ok(idx) => AddUnit(idx, units[|units| - 1])
  }

  /** Every unit's top-level type names, in order. */
  function Fqns(units: seq<Unit>): (r: seq<Option<string>>)
    decreases |units|
  {
    if |units| == 0 then [] else Fqns(units[..|units| - 1]) + units[|units| - 1].types
  }

  ghost predicate Stored(units: seq<Unit>)
  {
    forall k :: 0 <= k < |units| ==> units[k].storage.Some?
  }

  /** Every top-level type has a name, and no name is given twice. */
  ghost predicate NamedOnce(names: seq<Option<string>>)
  {
    (forall i :: 0 <= i < |names| ==> names[i].Some?) &&
    (forall i, j :: 0 <= i < j < |names| ==> names[i] != names[j])
  }

  /** `m` is the unit of the last stored unit with path `p`. */
  ghost predicate LastWithPath(units: seq<Unit>, p: string, m: int)
  {
    0 <= m < |units| && units[m].storage == Some(p) &&
    forall m' :: m < m' < |units| ==> units[m'].storage != Some(p)
  }

  /** What the index holds after all of `units`. */
  ghost predicate Indexes(units: seq<Unit>, idx: Index)
  {
    (forall q :: q in idx.byType <==> Some(q) in Fqns(units)) &&
    (forall k, j :: 0 <= k < |units| && 0 <= j < |units[k].types| && units[k].types[j].Some? ==>
       units[k].types[j].value in idx.byType && idx.byType[units[k].types[j].value] == units[k]) &&
    (forall p :: p in idx.byPath <==> exists k :: 0 <= k < |units| && units[k].storage == Some(p)) &&
    (forall p :: p in idx.byPath ==> exists m :: LastWithPath(units, p, m) && idx.byPath[p] == units[m])
  }

  lemma FqnsSnoc(init: seq<Unit>, u: Unit)
    ensures Fqns(init + [u]) == Fqns(init) + u.types
  {
    assert (init + [u])[..|init|] == init;
  }

  lemma NamedOnceConcat(a: seq<Option<string>>, b: seq<Option<string>>)
    ensures NamedOnce(a + b) <==>
      (NamedOnce(a) && NamedOnce(b) && forall i, j :: 0 <= i < |a| && 0 <= j < |b| ==> a[i] != b[j])
  {
    var ab := a + b;
    if NamedOnce(a) && NamedOnce(b) && (forall i, j :: 0 <= i < |a| && 0 <= j < |b| ==> a[i] != b[j]) {
      forall i, j | 0 <= i < j < |ab| ensures ab[i] != ab[j] {
        if j < |a| {
        } else if i < |a| {
          assert ab[j] == b[j - |a|];
        } else {
          assert ab[i] == b[i - |a|] && ab[j] == b[j - |a|];
        }
      }
      forall i | 0 <= i < |ab| ensures ab[i].Some? {
        if i >= |a| { assert ab[i] == b[i - |a|]; }
      }
    }
    if NamedOnce(ab) {
      forall i, j | 0 <= i < j < |b| ensures b[i] != b[j] {
        assert ab[|a| + i] == b[i] && ab[|a| + j] == b[j];
      }
      forall i | 0 <= i < |b| ensures b[i].Some? {
        assert ab[|a| + i] == b[i];
      }
      forall i, j | 0 <= i < |a| && 0 <= j < |b| ensures a[i] != b[j] {
        assert ab[i] == a[i] && ab[|a| + j] == b[j];
      }
      assert forall i :: 0 <= i < |a| ==> ab[i] == a[i];
    }
  }

  /** After construction the index maps every name to the unit declaring it
      and every path to the last unit stored there. */
  lemma {:induction false} BuildIndexes(units: seq<Unit>)
    requires Build(units).Ok?
    ensures Indexes(units, Build(units).value)
    decreases |units|
  {
    if |units| > 0 {
      var init, u := units[..|units| - 1], units[|units| - 1];
      assert units == init + [u];
      BuildIndexes(init);
      IndexesSnoc(init, u, Build(init).value, Build(units).value);
    }
  }

  /** Construction succeeds exactly when every unit is stored, every top-level
      type has a fully qualified name and no name is declared twice, in one
      unit or in two. */
  lemma {:induction false} BuildSucceeds(units: seq<Unit>)
    ensures Build(units).Ok? <==> Stored(units) && NamedOnce(Fqns(units))
    decreases |units|
  {
    if |units| > 0 {
      var init, u := units[..|units| - 1], units[|units| - 1];
      assert units == init + [u];
      BuildSucceeds(init);
      FqnsSnoc(init, u);
      NamedOnceConcat(Fqns(init), u.types);
      assert Stored(units) <==> Stored(init) && u.storage.Some? by {
        assert forall k :: 0 <= k < |init| ==> units[k] == init[k];
      }
      if Build(init).Ok? && u.storage.Some? {
        var idx := Build(init).value;
        IndexedNames(init);
        FreshNames(Fqns(init), idx.byType, u.types);
        var r := AddTypes(idx.byType, u.storage.value, u, u.types);
        assert Build(units).Ok? <==> r.Ok?;
      }
    }
  }

  /** A name is new to the type index exactly when no earlier unit declared
      it. */
  lemma FreshNames(names: seq<Option<string>>, byType: map<string, Unit>, ts: seq<Option<string>>)
    requires forall q :: q in byType <==> Some(q) in names
    ensures (forall i :: 0 <= i < |ts| ==> ts[i].Some? && ts[i].value !in byType) <==>
      (forall i :: 0 <= i < |ts| ==> ts[i].Some?) &&
      (forall i, j :: 0 <= i < |names| && 0 <= j < |ts| ==> names[i] != ts[j])
  {
    if forall i :: 0 <= i < |ts| ==> ts[i].Some? {
      forall i, j | 0 <= i < |names| && 0 <= j < |ts| && names[i] == ts[j]
        ensures ts[j].value in byType
      {
        assert names[i] in names;
      }
    }
  }

  lemma IndexesSnoc(init: seq<Unit>, u: Unit, idx: Index, idx': Index)
    requires Indexes(init, idx) && u.storage.Some?
    requires AddTypes(idx.byType, u.storage.value, u, u.types) == Ok(idx'.byType)
    requires idx'.byPath == idx.byPath[u.storage.value := u]
    ensures Indexes(init + [u], idx')
  {
    FqnsSnoc(init, u);
    TypesSnoc(init, u, idx, idx');
    PathsSnoc(init, u, idx, idx');
    LastSnoc(init, u, idx, idx');
  }

  lemma TypesSnoc(init: seq<Unit>, u: Unit, idx: Index, idx': Index)
    requires Indexes(init, idx) && u.storage.Some?
    requires AddTypes(idx.byType, u.storage.value, u, u.types) == Ok(idx'.byType)
    ensures forall k, j :: 0 <= k < |init + [u]| && 0 <= j < |(init + [u])[k].types| && (init + [u])[k].types[j].Some? ==>
       (init + [u])[k].types[j].value in idx'.byType && idx'.byType[(init + [u])[k].types[j].value] == (init + [u])[k]
  {
    var units := init + [u];
    forall k, j | 0 <= k < |units| && 0 <= j < |units[k].types| && units[k].types[j].Some?
      ensures units[k].types[j].value in idx'.byType && idx'.byType[units[k].types[j].value] == units[k]
    {
      var q := units[k].types[j].value;
      if k < |init| {
        assert units[k] == init[k];
        assert q in idx.byType;
      } else {
        assert units[k] == u;
        assert Some(q) in u.types;
      }
    }
  }

  lemma PathsSnoc(init: seq<Unit>, u: Unit, idx: Index, idx': Index)
    requires Indexes(init, idx) && u.storage.Some?
    requires idx'.byPath == idx.byPath[u.storage.value := u]
    ensures forall p :: p in idx'.byPath <==> exists k :: 0 <= k < |init + [u]| && (init + [u])[k].storage == Some(p)
  {
    var units := init + [u];
    forall p ensures p in idx'.byPath <==> exists k :: 0 <= k < |units| && units[k].storage == Some(p) {
      if p in idx'.byPath && p != u.storage.value {
        var k :| 0 <= k < |init| && init[k].storage == Some(p);
        assert units[k] == init[k];
      }
      if p == u.storage.value {
        assert units[|init|].storage == Some(p);
      }
      if exists k :: 0 <= k < |units| && units[k].storage == Some(p) {
        var k :| 0 <= k < |units| && units[k].storage == Some(p);
        if k < |init| {
          assert units[k] == init[k];
        }
      }
    }
  }

  lemma LastSnoc(init: seq<Unit>, u: Unit, idx: Index, idx': Index)
    requires Indexes(init, idx) && u.storage.Some?
    requires idx'.byPath == idx.byPath[u.storage.value := u]
    ensures forall p :: p in idx'.byPath ==> exists m :: LastWithPath(init + [u], p, m) && idx'.byPath[p] == (init + [u])[m]
  {
    var units := init + [u];
    forall p | p in idx'.byPath ensures exists m :: LastWithPath(units, p, m) && idx'.byPath[p] == units[m] {
      if p == u.storage.value {
        assert LastWithPath(units, p, |init|);
      } else {
        var m :| LastWithPath(init, p, m) && idx.byPath[p] == init[m];
        assert units[m] == init[m];
        assert LastWithPath(units, p, m);
      }
    }
  }

  /** `findCompilationUnit`: the unit stored at the (absolute) path. */
  function FindCompilationUnit(idx: Index, path: string): (r: Option<Unit>)
    ensures r.Some? <==> path in idx.byPath
    ensures r.Some? ==> r.value == idx.byPath[path]
  {
    if path in idx.byPath then Some(idx.byPath[path]) else None
  }

  /** `findCompilationUnitByTypeName`. */
  function FindCompilationUnitByTypeName(idx: Index, q: string): (r: Option<Unit>)
    ensures r.Some? <==> q in idx.byType
    ensures r.Some? ==> r.value == idx.byType[q]
  {
    if q in idx.byType then Some(idx.byType[q]) else None
  }

  /** The type lookup finds the unit that declares `q` as a top-level type,
      and nothing for a name no unit declares at the top level. */
  lemma FindByTypeName(units: seq<Unit>, q: string)
    requires Build(units).Ok?
    ensures forall k, j :: 0 <= k < |units| && 0 <= j < |units[k].types| && units[k].types[j] == Some(q) ==>
      FindCompilationUnitByTypeName(Build(units).value, q) == Some(units[k])
    ensures FindCompilationUnitByTypeName(Build(units).value, q).None? <==> Some(q) !in Fqns(units)
  {
    BuildIndexes(units);
  }

  /** The path lookup finds the last unit stored at the path: a later unit
      replaces an earlier one, where a repeated type name would be refused. */
  lemma FindByPath(units: seq<Unit>, p: string)
    requires Build(units).Ok?
    ensures FindCompilationUnit(Build(units).value, p).None? <==>
      forall k :: 0 <= k < |units| ==> units[k].storage != Some(p)
    ensures forall m :: LastWithPath(units, p, m) ==> FindCompilationUnit(Build(units).value, p) == Some(units[m])
  {
    BuildIndexes(units);
    var idx := Build(units).value;
    assert p in idx.byPath <==> exists k :: 0 <= k < |units| && units[k].storage == Some(p);
    forall m | LastWithPath(units, p, m)
      ensures FindCompilationUnit(idx, p) == Some(units[m])
    {
      assert units[m].storage == Some(p);
      var m' :| LastWithPath(units, p, m') && idx.byPath[p] == units[m'];
      LastUnique(units, p, m, m');
    }
  }

  lemma LastUnique(units: seq<Unit>, p: string, m: int, m': int)
    requires LastWithPath(units, p, m) && LastWithPath(units, p, m')
    ensures m == m'
  {
  }

  /** Two top-level types with one name fail construction; when every unit is
      stored and every type is named, the failure is the
      `IllegalStateException` of the first repetition. */
  lemma RepeatedNameFails(units: seq<Unit>, i: nat, j: nat)
    requires i < j < |Fqns(units)| && Fqns(units)[i] == Fqns(units)[j]
    ensures Build(units).Fail?
  {
    BuildSucceeds(units);
  }

  lemma {:induction false} NamedFailureIsIllegalState(units: seq<Unit>)
    requires Stored(units) && forall i :: 0 <= i < |Fqns(units)| ==> Fqns(units)[i].Some?
    ensures Build(units).Fail? ==> Build(units).exc.cls == IllegalState
    decreases |units|
  {
    if |units| > 0 {
      var init, u := units[..|units| - 1], units[|units| - 1];
      FqnsSnoc(init, u);
      assert units == init + [u];
      assert forall i :: 0 <= i < |Fqns(init)| ==> Fqns(units)[i] == Fqns(init)[i];
      assert forall i :: 0 <= i < |u.types| ==> Fqns(units)[|Fqns(init)| + i] == u.types[i];
      NamedFailureIsIllegalState(init);
      if Build(init).Ok? {
        var idx := Build(init).value;
        BuildIndexes(init);
        var r := AddTypes(idx.byType, u.storage.value, u, u.types);
        if r.Fail? {
          NamedTypesFailIllegalState(idx, init, u);
        }
      }
    }
  }

  /** With every type named, the inner loop can only fail on a repetition,
      and the unit already holding the name is a stored one. */
  lemma {:induction false} NamedTypesFailIllegalState(idx: Index, init: seq<Unit>, u: Unit)
    requires Build(init) == Ok(idx) && Indexes(init, idx) && Stored(init) && u.storage.Some?
    requires forall i :: 0 <= i < |u.types| ==> u.types[i].Some?
    ensures var r := AddTypes(idx.byType, u.storage.value, u, u.types); r.Fail? ==> r.exc.cls == IllegalState
  {
    forall q | q in idx.byType ensures idx.byType[q].storage.Some? {
      var i :| 0 <= i < |Fqns(init)| && Fqns(init)[i] == Some(q);
      var k, j := FqnsPosition(init, i);
    }
    AddTypesStored(idx.byType, u.storage.value, u, u.types);
  }

  /** Where the `i`th name of `Fqns(units)` comes from. */
  lemma {:induction false} FqnsPosition(units: seq<Unit>, i: nat) returns (k: nat, j: nat)
    requires i < |Fqns(units)|
    ensures k < |units| && j < |units[k].types| && units[k].types[j] == Fqns(units)[i]
    decreases |units|
  {
    var init, u := units[..|units| - 1], units[|units| - 1];
    FqnsSnoc(init, u);
    assert units == init + [u];
    if i < |Fqns(init)| {
      k, j := FqnsPosition(init, i);
      assert units[k] == init[k];
    } else {
      k, j := |units| - 1, i - |Fqns(init)|;
    }
  }

  lemma {:induction false} AddTypesStored(byType: map<string, Unit>, path: string, u: Unit, ts: seq<Option<string>>)
    requires u.storage.Some? && forall q :: q in byType ==> byType[q].storage.Some?
    requires forall i :: 0 <= i < |ts| ==> ts[i].Some?
    ensures var r := AddTypes(byType, path, u, ts); r.Fail? ==> r.exc.cls == IllegalState
    decreases |ts|
  {
    if |ts| > 0 && ts[0].value !in byType {
      assert forall i :: 0 <= i < |ts[1..]| ==> ts[1..][i] == ts[i + 1];
      AddTypesStored(byType[ts[0].value := u], path, u, ts[1..]);
    }
  }

  /** Where no name is declared twice, construction on stored units fails
      exactly when some type has no fully qualified name... */
  lemma UnnamedFailsExactly(units: seq<Unit>)
    requires Stored(units)
    requires forall i, j :: 0 <= i < j < |Fqns(units)| && Fqns(units)[i].Some? ==> Fqns(units)[i] != Fqns(units)[j]
    ensures Build(units).Fail? <==> None in Fqns(units)
  {
    BuildSucceeds(units);
  }

  /** ...and then it throws the `IllegalArgumentException`. */
  lemma {:induction false} UnnamedFailureIsIllegalArgument(units: seq<Unit>)
    requires Stored(units)
    requires forall i, j :: 0 <= i < j < |Fqns(units)| && Fqns(units)[i].Some? ==> Fqns(units)[i] != Fqns(units)[j]
    ensures Build(units).Fail? ==> Build(units).exc == MissingFqn
    decreases |units|
  {
    if |units| > 0 {
      var init, u := units[..|units| - 1], units[|units| - 1];
      FqnsSnoc(init, u);
      assert units == init + [u];
      var n := |Fqns(init)|;
      assert forall i :: 0 <= i < n ==> Fqns(units)[i] == Fqns(init)[i];
      assert forall i :: 0 <= i < |u.types| ==> Fqns(units)[n + i] == u.types[i];
      assert forall k :: 0 <= k < |init| ==> units[k] == init[k];
      UnnamedFailureIsIllegalArgument(init);
      if Build(init).Ok? {
        forall i, j | 0 <= i < n && 0 <= j < |u.types| && u.types[j].Some?
          ensures Fqns(init)[i] != u.types[j]
        {
          assert Fqns(units)[i] == Fqns(init)[i] && Fqns(units)[n + j] == u.types[j];
        }
        forall i, j | 0 <= i < j < |u.types| && u.types[i].Some?
          ensures u.types[i] != u.types[j]
        {
          assert Fqns(units)[n + i] == u.types[i] && Fqns(units)[n + j] == u.types[j];
        }
        UnnamedStep(init, u, Build(init).value);
      }
    }
  }

  lemma UnnamedStep(init: seq<Unit>, u: Unit, idx: Index)
    requires Build(init) == Ok(idx) && u.storage.Some?
    requires forall i, j :: 0 <= i < |Fqns(init)| && 0 <= j < |u.types| && u.types[j].Some? ==> Fqns(init)[i] != u.types[j]
    requires forall i, j :: 0 <= i < j < |u.types| && u.types[i].Some? ==> u.types[i] != u.types[j]
    ensures var r := AddTypes(idx.byType, u.storage.value, u, u.types); r.Fail? ==> r.exc == MissingFqn
  {
    IndexedNames(init);
    AddTypesUnnamed(idx.byType, u.storage.value, u, u.types);
  }

  lemma IndexedNames(units: seq<Unit>)
    requires Build(units).Ok?
    ensures forall q :: q in Build(units).value.byType <==> Some(q) in Fqns(units)
  {
    BuildIndexes(units);
  }

  lemma {:induction false} AddTypesUnnamed(byType: map<string, Unit>, path: string, u: Unit, ts: seq<Option<string>>)
    requires forall i :: 0 <= i < |ts| && ts[i].Some? ==> ts[i].value !in byType
    requires forall i, j :: 0 <= i < j < |ts| && ts[i].Some? ==> ts[i] != ts[j]
    ensures var r := AddTypes(byType, path, u, ts); r.Fail? ==> r.exc == MissingFqn
    decreases |ts|
  {
    if |ts| > 0 && ts[0].Some? {
      assert forall i :: 0 <= i < |ts[1..]| ==> ts[1..][i] == ts[i + 1];
      AddTypesUnnamed(byType[ts[0].value := u], path, u, ts[1..]);
    }
  }

  /** Once construction fails, later units change nothing: the constructor
      throws what it threw at the first failing unit. */
  lemma {:induction false} FailureIsFinal(pre: seq<Unit>, rest: seq<Unit>)
    requires Build(pre).Fail?
    ensures Build(pre + rest) == Build(pre)
    decreases |rest|
  {
    if |rest| == 0 {
      assert pre + rest == pre;
    } else {
      var all := pre + rest;
      assert all[..|all| - 1] == pre + rest[..|rest| - 1];
      FailureIsFinal(pre, rest[..|rest| - 1]);
    }
  }

  /** `findPath` is what construction asks of each unit: the first unit
      without storage, reached with the earlier ones indexed, ends
      construction with `findPath`'s `IllegalArgumentException`, whatever
      follows it. */
  lemma UnstoredUnitFails(init: seq<Unit>, u: Unit, rest: seq<Unit>)
    requires FindPath(u).Fail? && Build(init).Ok?
    ensures Build(init + [u] + rest) == Fail(FindPath(u).exc)
    ensures Build(init + [u] + rest).exc == Exc(IllegalArgument, Some("No storage for compilation unit!"))
  {
    var pre := init + [u];
    assert pre[..|pre| - 1] == init;
    assert Build(pre) == Fail(FindPath(u).exc);
    FailureIsFinal(pre, rest);
  }

  /** After construction every unit has a `findPath`, and the path lookup
      finds a unit for it. */
  lemma BuiltUnitsHavePaths(units: seq<Unit>)
    requires Build(units).Ok?
    ensures forall k :: 0 <= k < |units| ==>
      FindPath(units[k]).Ok? && FindCompilationUnit(Build(units).value, FindPath(units[k]).value).Some?
  {
    BuildSucceeds(units);
    forall k | 0 <= k < |units|
      ensures FindPath(units[k]).Ok? && FindCompilationUnit(Build(units).value, FindPath(units[k]).value).Some?
    {
      FindByPath(units, units[k].storage.value);
    }
  }
}
