/** `CsvReports`: the report of the tree-wide collector. Its writers live in a
    map keyed by file suffix; a writer is created, and its header written, the
    first time a row goes to its suffix. */
module CsvReports {
  import opened Syntax
  import opened CsvUtils
  import opened Reports

  const TypesSuffix: string := "types.csv"
  const ErrorsSuffix: string := "errors.csv"
  const PackagesSuffix: string := "packages.csv"

  const TypesHeader: seq<string> := ["line", "col", "type"]

  /** The suffix a write goes to. */
  function SuffixOf(e: Event): string
  {
    match e
    case Regular(_, _) => TypesSuffix
    case Package(_, _, _) => PackagesSuffix
    case Error(_, _, _) => ErrorsSuffix
  }

  /** The header written when the writer for a suffix is created. */
  function HeaderOf(suffix: string): seq<string>
  {
    if suffix == TypesSuffix then TypesHeader
    else if suffix == PackagesSuffix then PackagesHeader
    else ErrorHeader
  }

  /** The three categories have different suffixes and headers of 3, 4 and 4 columns. */
  lemma Categories()
    ensures TypesSuffix != ErrorsSuffix && TypesSuffix != PackagesSuffix && ErrorsSuffix != PackagesSuffix
    ensures |HeaderOf(TypesSuffix)| == 3 && |HeaderOf(ErrorsSuffix)| == 4 && |HeaderOf(PackagesSuffix)| == 4
    ensures HeaderOf(ErrorsSuffix) == ErrorHeader && HeaderOf(PackagesSuffix) == PackagesHeader
  {
  }

  /** A report: the base output file and the writers created so far. */
  datatype MultiReport = MultiReport(fakeOutput: string, writers: map<string, Writer>)

  function NewMultiReport(fakeOutput: string): (r: MultiReport)
    ensures r.fakeOutput == fakeOutput && r.writers == map[]
  {
    MultiReport(fakeOutput, map[])
  }

  /** The file a suffix's writer writes to. */
  function FileOf(fakeOutput: string, suffix: string): string
  {
    fakeOutput + "." + suffix
  }

  /** `getWriter(which, headers)` followed by the write of one row. */
  function Put(r: MultiReport, suffix: string, row: seq<Cell>): (r': MultiReport)
    ensures r'.fakeOutput == r.fakeOutput
    ensures r'.writers.Keys == r.writers.Keys + {suffix}
    ensures forall s :: s in r.writers && s != suffix ==> r'.writers[s] == r.writers[s]
    ensures suffix in r.writers ==> r'.writers[suffix] == Write(r.writers[suffix], row)
    ensures suffix !in r.writers ==>
      r'.writers[suffix].file == FileOf(r.fakeOutput, suffix) &&
      r'.writers[suffix].lines == [HeaderOf(suffix), Render(row)]
  {
    var w := if suffix in r.writers then r.writers[suffix]
             else Write(NewWriter(FileOf(r.fakeOutput, suffix)), Texts(HeaderOf(suffix)));
    r.(writers := r.writers[suffix := Write(w, row)])
  }

  /** `writeRegular`, `writePackage` or `writeError`: the row `doWrite` builds,
      sent to the event's suffix. */
  function Emit(r: MultiReport, e: Event): (r': MultiReport)
    ensures r'.fakeOutput == r.fakeOutput
  {
    Put(r, SuffixOf(e), RowCells(e.at, FieldsOf(e)))
  }

  function EmitAll(r: MultiReport, es: seq<Event>): (r': MultiReport)
    ensures r'.fakeOutput == r.fakeOutput
    decreases |es|
  {
    if |es| == 0 then r else EmitAll(Emit(r, es[0]), es[1..])
  }

  /** The rows that went to one suffix, in write order. */
  function RowsFor(es: seq<Event>, suffix: string): seq<seq<string>>
    decreases |es|
  {
    if |es| == 0 then [] else (if SuffixOf(es[0]) == suffix then [RowOf(es[0])] else []) + RowsFor(es[1..], suffix)
  }

  /** The suffixes some event went to. */
  function SuffixesOf(es: seq<Event>): set<string>
    decreases |es|
  {
    if |es| == 0 then {} else {SuffixOf(es[0])} + SuffixesOf(es[1..])
  }

  /** What the writer of `suffix` holds after `rows` went to it. */
  predicate HoldsRows(r: MultiReport, suffix: string, rows: seq<seq<string>>)
  {
    suffix in r.writers &&
    r.writers[suffix] == Writer(FileOf(r.fakeOutput, suffix), [HeaderOf(suffix)] + rows, |rows| + 1, false)
  }

  lemma {:induction false} RowsForNonEmpty(es: seq<Event>, suffix: string)
    ensures suffix in SuffixesOf(es) <==> |RowsFor(es, suffix)| > 0
    decreases |es|
  {
    if |es| > 0 {
      RowsForNonEmpty(es[1..], suffix);
    }
  }

  /** Invariant of a report built from `done`: one writer per suffix used, each
      with its header once, then its rows. */
  ghost predicate Built(r: MultiReport, done: seq<Event>)
  {
    && r.writers.Keys == SuffixesOf(done)
    && forall s :: s in r.writers ==> HoldsRows(r, s, RowsFor(done, s))
  }

  lemma {:induction false} RowsForSnoc(es: seq<Event>, e: Event, suffix: string)
    ensures RowsFor(es + [e], suffix) == RowsFor(es, suffix) + (if SuffixOf(e) == suffix then [RowOf(e)] else [])
    ensures SuffixesOf(es + [e]) == SuffixesOf(es) + {SuffixOf(e)}
    decreases |es|
  {
    if |es| == 0 {
      assert es + [e] == [e];
    } else {
      var es' := es + [e];
      assert es'[0] == es[0] && es'[1..] == es[1..] + [e];
      RowsForSnoc(es[1..], e, suffix);
      var h := if SuffixOf(es[0]) == suffix then [RowOf(es[0])] else [];
      var t := if SuffixOf(e) == suffix then [RowOf(e)] else [];
      assert RowsFor(es', suffix) == h + (RowsFor(es[1..], suffix) + t);
      assert h + (RowsFor(es[1..], suffix) + t) == (h + RowsFor(es[1..], suffix)) + t;
    }
  }

  lemma EmitBuilt(r: MultiReport, done: seq<Event>, e: Event)
    requires Built(r, done)
    ensures Built(Emit(r, e), done + [e])
  {
    var r' := Emit(r, e);
    RowsForSnoc(done, e, SuffixOf(e));
    forall s | s in r'.writers ensures HoldsRows(r', s, RowsFor(done + [e], s)) {
      if s == SuffixOf(e) {
        EmitBuiltHit(r, done, e);
      } else {
        EmitBuiltOther(r, done, e, s);
      }
    }
  }

  /** The writer the event goes to gains exactly its row. */
  lemma EmitBuiltHit(r: MultiReport, done: seq<Event>, e: Event)
    requires Built(r, done)
    ensures HoldsRows(Emit(r, e), SuffixOf(e), RowsFor(done + [e], SuffixOf(e)))
  {
    var sfx := SuffixOf(e);
    RowsForSnoc(done, e, sfx);
    RowOfRender(e);
    assert RowsFor(done + [e], sfx) == RowsFor(done, sfx) + [RowOf(e)];
    if sfx !in r.writers {
      RowsForNonEmpty(done, sfx);
      assert RowsFor(done, sfx) == [];
    } else {
      assert HoldsRows(r, sfx, RowsFor(done, sfx));
      assert [HeaderOf(sfx)] + RowsFor(done, sfx) + [RowOf(e)] == [HeaderOf(sfx)] + (RowsFor(done, sfx) + [RowOf(e)]);
    }
  }

  /** Every other writer is left as it was. */
  lemma EmitBuiltOther(r: MultiReport, done: seq<Event>, e: Event, s: string)
    requires Built(r, done) && s != SuffixOf(e) && s in Emit(r, e).writers
    ensures HoldsRows(Emit(r, e), s, RowsFor(done + [e], s))
  {
    RowsForSnoc(done, e, s);
    assert RowsFor(done + [e], s) == RowsFor(done, s) + [] == RowsFor(done, s);
    assert s in r.writers;
    assert HoldsRows(r, s, RowsFor(done, s));
  }

  lemma RowOfRender(e: Event)
    ensures Render(RowCells(e.at, FieldsOf(e))) == RowOf(e)
  {
  }

  lemma SnocSplit<T>(a: seq<T>, s: seq<T>)
    requires |s| > 0
    ensures a + [s[0]] + s[1..] == a + s
  {
    assert s == [s[0]] + s[1..];
  }

  lemma {:induction false} EmitAllBuilt(r: MultiReport, done: seq<Event>, es: seq<Event>)
    requires Built(r, done)
    ensures Built(EmitAll(r, es), done + es)
    decreases |es|
  {
    if |es| == 0 {
      assert done + es == done;
    } else {
      EmitBuilt(r, done, es[0]);
      SnocSplit(done, es);
      EmitAllBuilt(Emit(r, es[0]), done + [es[0]], es[1..]);
    }
  }

  /** A fresh report after a sequence of writes: there is a writer exactly for
      each suffix some row went to, writing to base + "." + suffix, holding that
      suffix's header once, first, and then exactly its rows in write order. */
  lemma EmitAllFresh(fakeOutput: string, es: seq<Event>)
    ensures var r := EmitAll(NewMultiReport(fakeOutput), es);
      && r.writers.Keys == SuffixesOf(es)
      && forall s :: s in r.writers ==>
           && r.writers[s].file == fakeOutput + "." + s
           && r.writers[s].lines == [HeaderOf(s)] + RowsFor(es, s)
           && |RowsFor(es, s)| > 0
  {
    var r0 := NewMultiReport(fakeOutput);
    assert Built(r0, []);
    EmitAllBuilt(r0, [], es);
    assert [] + es == es;
    forall s | s in SuffixesOf(es) ensures |RowsFor(es, s)| > 0 {
      RowsForNonEmpty(es, s);
    }
  }

  /** `close()`: every writer that was created gets closed; the rows stay. */
  function CloseAll(r: MultiReport): (r': MultiReport)
    ensures r'.fakeOutput == r.fakeOutput && r'.writers.Keys == r.writers.Keys
    ensures forall s :: s in r.writers ==> r'.writers[s].closed && r'.writers[s].lines == r.writers[s].lines
  {
    r.(writers := map s | s in r.writers :: Close(r.writers[s]))
  }

  /** `getFakeOutput()`: the base file the report was made for. */
  function GetFakeOutput(r: MultiReport): string
  {
    r.fakeOutput
  }

  lemma FakeOutputKept(fakeOutput: string, es: seq<Event>)
    ensures GetFakeOutput(CloseAll(EmitAll(NewMultiReport(fakeOutput), es))) == fakeOutput
  {
  }
}
