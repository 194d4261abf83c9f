/** `CsvUtils.write`: one row of objects rendered to strings, appended to a
    writer and flushed. The writer is the sequence of rows it has received; the
    quoting of the CSV library is not part of the model. */
module CsvUtils {
  import opened Strings

  /** A value handed to `write`: null, a string-like object (its `toString()`
      already taken), or an `int`. */
  datatype Cell = Null | Text(s: string) | Num(i: int)

  /** The string `write` puts in a column for one value. */
  function CellString(c: Cell): string
  {
    match c
    case Null => ""
    case Text(s) => s
    case Num(i) => IntToString(i)
  }

  /** The row of strings written for a list of values: null becomes "", any
      other value its `toString()`, in the same order and of the same length. */
  function Render(cells: seq<Cell>): (r: seq<string>)
    ensures |r| == |cells|
    ensures forall k :: 0 <= k < |cells| ==> r[k] == (if cells[k].Null? then "" else CellString(cells[k]))
  {
    seq(|cells|, k requires 0 <= k < |cells| => CellString(cells[k]))
  }

  lemma RenderConcat(a: seq<Cell>, b: seq<Cell>)
    ensures Render(a + b) == Render(a) + Render(b)
  {
    assert forall k :: 0 <= k < |a + b| ==> Render(a + b)[k] == (Render(a) + Render(b))[k];
  }

  /** An open CSV file: its name, the rows written so far, how many of them have
      been flushed, and whether `close` has been called on it. */
  datatype Writer = Writer(file: string, lines: seq<seq<string>>, flushed: nat, closed: bool)

  /** A writer just created for `file` (`newCsvWriter`). */
  function NewWriter(file: string): (w: Writer)
    ensures w.file == file && w.lines == [] && w.flushed == 0 && !w.closed
  {
    Writer(file, [], 0, false)
  }

  /** `write(writer, args)`, both the list and the varargs overload: the row
      is appended and the writer is flushed right after, so every row written so
      far has been flushed. */
  function Write(w: Writer, cells: seq<Cell>): (r: Writer)
    ensures r.lines == w.lines + [Render(cells)]
    ensures r.flushed == |r.lines|
    ensures r.file == w.file && r.closed == w.closed
  {
    var lines := w.lines + [Render(cells)];
    Writer(w.file, lines, |lines|, w.closed)
  }

  /** `close()`: the rows stay as written. */
  function Close(w: Writer): (r: Writer)
    ensures r.closed && r.lines == w.lines && r.file == w.file && r.flushed == w.flushed
  {
    w.(closed := true)
  }

  function Texts(ss: seq<string>): (r: seq<Cell>)
    ensures |r| == |ss| && forall k :: 0 <= k < |ss| ==> r[k] == Text(ss[k])
    ensures Render(r) == ss
  {
    seq(|ss|, k requires 0 <= k < |ss| => Text(ss[k]))
  }
}
