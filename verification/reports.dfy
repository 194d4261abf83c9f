/** Fact rows and `AbstractCsvReport`.

    A visitor's writes are modelled as events; a report turns each event into
    one row in one of its three files, opening that file (and writing its
    header) on first use. Which file and which row depend only on the event, so
    a whole walk's output is the report applied to the walk's events in order.
 */
module Reports {
  import opened Base
  import opened Syntax
  import opened CsvUtils

  /** One `writeRegular`, `writePackage` or `writeError` call, with the start
      position of the node it was made for. */
  datatype Event =
    | Regular(at: Pos, fields: seq<Cell>)
    | Package(at: Pos, pkg: string, ofType: string)
    | Error(at: Pos, node: string, error: Option<string>)

  /** The values after line and column: a package row holds the two types'
      textual forms, an error row the node text and the (nullable) message. */
  function FieldsOf(e: Event): seq<Cell>
  {
    match e
    case Regular(_, fields) => fields
    case Package(_, pkg, ofType) => [Text(pkg), Text(ofType)]
    case Error(_, node, error) => [Text(node), match error case Some(m) => Text(m) case None => Null]
  }

  /** `doWrite`: start line, start column, then the fields in order. */
  function RowCells(at: Pos, fields: seq<Cell>): (r: seq<Cell>)
    ensures |r| == |fields| + 2
    ensures r[0] == Num(at.line) && r[1] == Num(at.column) && r[2..] == fields
  {
    [Num(at.line), Num(at.column)] + fields
  }

  /** The row of strings one event puts in its file. */
  function RowOf(e: Event): seq<string>
  {
    Render(RowCells(e.at, FieldsOf(e)))
  }

  const ErrorHeader: seq<string> := ["line", "col", "node", "error"]
  const PackagesHeader: seq<string> := ["line", "col", "package", "type"]

  /** A writer field that is null until the first write to it. */
  datatype Lazy = Unopened | Opened(w: Writer)

  /** `getWriter()` and friends followed by the write: the first write creates
      the file and writes the header, every write then appends its row. */
  function Append(l: Lazy, file: string, header: seq<string>, row: seq<Cell>): Lazy
  {
    var w := if l.Unopened? then Write(NewWriter(file), Texts(header)) else l.w;
    Opened(Write(w, row))
  }

  /** A report for one input file: `base` is the absolute path of the output
      stand-in, `what` the category name, `header` the regular file's header. */
  datatype CsvReport = CsvReport(base: string, what: string, header: seq<string>,
                                 regular: Lazy, packages: Lazy, errors: Lazy)

  function NewCsvReport(base: string, what: string, header: seq<string>): CsvReport
  {
    CsvReport(base, what, header, Unopened, Unopened, Unopened)
  }

  function RegularFile(r: CsvReport): string { r.base + "." + r.what + ".csv" }
  function PackagesFile(r: CsvReport): string { r.base + "." + r.what + ".packages.csv" }
  function ErrorsFile(r: CsvReport): string { r.base + "." + r.what + ".errors.csv" }

  /** One write: each kind of event goes to its own writer only. */
  function Emit(r: CsvReport, e: Event): (r': CsvReport)
    ensures r'.base == r.base && r'.what == r.what && r'.header == r.header
    ensures e.Regular? ==> r'.packages == r.packages && r'.errors == r.errors
    ensures e.Package? ==> r'.regular == r.regular && r'.errors == r.errors
    ensures e.Error? ==> r'.regular == r.regular && r'.packages == r.packages
  {
    var cells := RowCells(e.at, FieldsOf(e));
    match e
    case Regular(_, _) => r.(regular := Append(r.regular, RegularFile(r), r.header, cells))
    case Package(_, _, _) => r.(packages := Append(r.packages, PackagesFile(r), PackagesHeader, cells))
    case Error(_, _, _) => r.(errors := Append(r.errors, ErrorsFile(r), ErrorHeader, cells))
  }

  function EmitAll(r: CsvReport, es: seq<Event>): CsvReport
    decreases |es|
  {
    if |es| == 0 then r else EmitAll(Emit(r, es[0]), es[1..])
  }

  /** The rows of the events of one kind, in event order. */
  function RegularRows(es: seq<Event>): seq<seq<string>>
  {
    if |es| == 0 then [] else RegularRow(es[0]) + RegularRows(es[1..])
  }

  function PackageRows(es: seq<Event>): seq<seq<string>>
  {
    if |es| == 0 then [] else PackageRow(es[0]) + PackageRows(es[1..])
  }

  function ErrorRows(es: seq<Event>): seq<seq<string>>
  {
    if |es| == 0 then [] else ErrorRow(es[0]) + ErrorRows(es[1..])
  }

  /** What a writer holds after `rows` were written through it: nothing was
      opened for no rows; otherwise the header once, first, then the rows, all
      flushed. */
  function Holding(file: string, header: seq<string>, rows: seq<seq<string>>): Lazy
  {
    if |rows| == 0 then Unopened else Opened(Writer(file, [header] + rows, |rows| + 1, false))
  }

  lemma AppendHolding(file: string, header: seq<string>, rows: seq<seq<string>>, row: seq<Cell>)
    ensures Append(Holding(file, header, rows), file, header, row) == Holding(file, header, rows + [Render(row)])
  {
    if |rows| == 0 {
      assert rows + [Render(row)] == [Render(row)];
    } else {
      assert [header] + rows + [Render(row)] == [header] + (rows + [Render(row)]);
    }
  }

  /** The rows of one event, as the kind filters see them. */
  function RegularRow(e: Event): seq<seq<string>> { if e.Regular? then [RowOf(e)] else [] }
  function PackageRow(e: Event): seq<seq<string>> { if e.Package? then [RowOf(e)] else [] }
  function ErrorRow(e: Event): seq<seq<string>> { if e.Error? then [RowOf(e)] else [] }

  /** Holds when each writer of `r` holds exactly the given rows. */
  predicate Holds(r: CsvReport, reg: seq<seq<string>>, pkg: seq<seq<string>>, err: seq<seq<string>>)
  {
    && r.regular == Holding(RegularFile(r), r.header, reg)
    && r.packages == Holding(PackagesFile(r), PackagesHeader, pkg)
    && r.errors == Holding(ErrorsFile(r), ErrorHeader, err)
  }

  lemma EmitStep(r: CsvReport, e: Event, reg: seq<seq<string>>, pkg: seq<seq<string>>, err: seq<seq<string>>)
    requires Holds(r, reg, pkg, err)
    ensures Holds(Emit(r, e), reg + RegularRow(e), pkg + PackageRow(e), err + ErrorRow(e))
  {
    var cells := RowCells(e.at, FieldsOf(e));
    assert RowOf(e) == Render(cells);
    if e.Regular? {
      AppendHolding(RegularFile(r), r.header, reg, cells);
      assert pkg + PackageRow(e) == pkg && err + ErrorRow(e) == err;
    } else if e.Package? {
      AppendHolding(PackagesFile(r), PackagesHeader, pkg, cells);
      assert reg + RegularRow(e) == reg && err + ErrorRow(e) == err;
    } else {
      AppendHolding(ErrorsFile(r), ErrorHeader, err, cells);
      assert reg + RegularRow(e) == reg && pkg + PackageRow(e) == pkg;
    }
  }

  lemma Assoc<T>(a: seq<T>, b: seq<T>, c: seq<T>)
    ensures a + b + c == a + (b + c)
  {
  }

  lemma {:induction false} EmitAllExtends(r: CsvReport, es: seq<Event>,
                                          reg: seq<seq<string>>, pkg: seq<seq<string>>, err: seq<seq<string>>)
    requires Holds(r, reg, pkg, err)
    ensures var r' := EmitAll(r, es);
      && r'.base == r.base && r'.what == r.what && r'.header == r.header
      && Holds(r', reg + RegularRows(es), pkg + PackageRows(es), err + ErrorRows(es))
    decreases |es|
  {
    if |es| == 0 {
      assert reg + [] == reg && pkg + [] == pkg && err + [] == err;
    } else {
      var e := es[0];
      var r1 := Emit(r, e);
      var reg1, pkg1, err1 := reg + RegularRow(e), pkg + PackageRow(e), err + ErrorRow(e);
      EmitStep(r, e, reg, pkg, err);
      EmitAllExtends(r1, es[1..], reg1, pkg1, err1);
      assert EmitAll(r, es) == EmitAll(r1, es[1..]);
      assert reg1 + RegularRows(es[1..]) == reg + RegularRows(es) by {
        Assoc(reg, RegularRow(e), RegularRows(es[1..]));
      }
      assert pkg1 + PackageRows(es[1..]) == pkg + PackageRows(es) by {
        Assoc(pkg, PackageRow(e), PackageRows(es[1..]));
      }
      assert err1 + ErrorRows(es[1..]) == err + ErrorRows(es) by {
        Assoc(err, ErrorRow(e), ErrorRows(es[1..]));
      }
    }
  }

  /** A fresh report after a sequence of writes: each file exists only if some
      row went to it, begins with its header exactly once, and holds exactly the
      rows of its own kind, in write order, all flushed. */
  lemma EmitAllFresh(base: string, what: string, header: seq<string>, es: seq<Event>)
    ensures var r := EmitAll(NewCsvReport(base, what, header), es);
      && r.regular == Holding(base + "." + what + ".csv", header, RegularRows(es))
      && r.packages == Holding(base + "." + what + ".packages.csv", PackagesHeader, PackageRows(es))
      && r.errors == Holding(base + "." + what + ".errors.csv", ErrorHeader, ErrorRows(es))
  {
    var r := NewCsvReport(base, what, header);
    assert Holds(r, [], [], []);
    EmitAllExtends(r, es, [], [], []);
    assert [] + RegularRows(es) == RegularRows(es);
    assert [] + PackageRows(es) == PackageRows(es);
    assert [] + ErrorRows(es) == ErrorRows(es);
  }

  /** `close()`: the writers that were opened are closed; the others were never
      created and stay so. */
  function CloseReport(r: CsvReport): (r': CsvReport)
    ensures r'.base == r.base && r'.what == r.what && r'.header == r.header
    ensures r.regular.Unopened? <==> r'.regular.Unopened?
    ensures r.packages.Unopened? <==> r'.packages.Unopened?
    ensures r.errors.Unopened? <==> r'.errors.Unopened?
    ensures r'.regular.Opened? ==> r'.regular.w.closed && r'.regular.w.lines == r.regular.w.lines
    ensures r'.packages.Opened? ==> r'.packages.w.closed && r'.packages.w.lines == r.packages.w.lines
    ensures r'.errors.Opened? ==> r'.errors.w.closed && r'.errors.w.lines == r.errors.w.lines
  {
    r.(regular := CloseLazy(r.regular), packages := CloseLazy(r.packages), errors := CloseLazy(r.errors))
  }

  function CloseLazy(l: Lazy): Lazy
  {
    match l
    case Unopened => Unopened
    case Opened(w) => Opened(Close(w))
  }
}
