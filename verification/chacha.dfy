/** `ChaChaVisitorContext`: two lists of "line:column text" entries, handed
    out sorted by numeric line and then numeric column. */
module ChaChaVisitorContext {
  import opened Base
  import opened Strings
  import opened Syntax

  /** An entry as added: the node's start and the text. */
  datatype Entry = Entry(line: int, column: int, text: string)

  /** `range(node) + " " + line`: only the start is used. */
  function EntryString(e: Entry): string
  {
    IntToString(e.line) + ":" + IntToString(e.column) + " " + e.text
  }

  /** Java `int` positions. */
  predicate IntRange(i: int)
  {
    -0x8000_0000 <= i < 0x8000_0000
  }

  /** The comparator's first key: `Long.valueOf(s.split(":", 2)[0])`. */
  function LineKey(s: string): Option<int>
  {
    ParseLong(SplitOnce(s, ':')[0])
  }

  /** The second key: `Long.valueOf(s.split(":", 2)[1].split(" ", 2)[0])`;
      absent where the first split has no second part. */
  function ColumnKey(s: string): Option<int>
  {
    var parts := SplitOnce(s, ':');
    if |parts| < 2 then None else ParseLong(SplitOnce(parts[1], ' ')[0])
  }

  /** `lineColComparator.compare(a, b) <= 0` on two strings whose keys parse. */
  predicate StringLe(a: string, b: string)
    requires LineKey(a).Some? && ColumnKey(a).Some? && LineKey(b).Some? && ColumnKey(b).Some?
  {
    LineKey(a).value < LineKey(b).value ||
    (LineKey(a).value == LineKey(b).value && ColumnKey(a).value <= ColumnKey(b).value)
  }

  /** The same order on entries. */
  predicate KeyLe(a: Entry, b: Entry)
  {
    a.line < b.line || (a.line == b.line && a.column <= b.column)
  }

  lemma IndexOfAfter(a: string, c: char, b: string)
    requires c !in a
    ensures c in a + [c] + b && IndexOf(a + [c] + b, c) == |a|
    decreases |a|
  {
    if |a| > 0 {
      assert (a + [c] + b)[1..] == a[1..] + [c] + b;
      IndexOfAfter(a[1..], c, b);
    }
  }

  /** Splitting at the first `c` of `a + c + b`, where `a` has none. */
  lemma SplitOnceAt(a: string, c: char, b: string)
    requires c !in a
    ensures SplitOnce(a + [c] + b, c) == [a, b]
  {
    IndexOfAfter(a, c, b);
    var s := a + [c] + b;
    assert s[..|a|] == a;
    assert s[|a| + 1..] == b;
  }

  lemma NoSeparatorInNumber(i: int)
    ensures ':' !in IntToString(i) && ' ' !in IntToString(i)
  {
    var s := IntToString(i);
    assert forall k :: 0 <= k < |s| ==> s[k] == '-' || IsDigit(s[k]);
  }

  /** The comparator's keys of an entry's string are the entry's line and
      column, whatever the text holds. */
  lemma KeysOfEntry(e: Entry)
    requires IntRange(e.line) && IntRange(e.column)
    ensures LineKey(EntryString(e)) == Some(e.line)
    ensures ColumnKey(EntryString(e)) == Some(e.column)
  {
    var l, c := IntToString(e.line), IntToString(e.column);
    NoSeparatorInNumber(e.line);
    NoSeparatorInNumber(e.column);
    assert EntryString(e) == l + [':'] + (c + " " + e.text);
    SplitOnceAt(l, ':', c + " " + e.text);
    assert c + " " + e.text == c + [' '] + e.text;
    SplitOnceAt(c, ' ', e.text);
    ParseOfIntToString(e.line);
    ParseOfIntToString(e.column);
  }

  /** So the comparator orders entry strings exactly as their numeric keys:
      "9:1 x" before "10:1 y", which a text comparison would not do. */
  lemma ComparatorAgrees(a: Entry, b: Entry)
    requires IntRange(a.line) && IntRange(a.column) && IntRange(b.line) && IntRange(b.column)
    ensures LineKey(EntryString(a)).Some? && ColumnKey(EntryString(a)).Some?
    ensures LineKey(EntryString(b)).Some? && ColumnKey(EntryString(b)).Some?
    ensures StringLe(EntryString(a), EntryString(b)) <==> KeyLe(a, b)
  {
    KeysOfEntry(a);
    KeysOfEntry(b);
  }

  predicate Sorted(s: seq<Entry>)
  {
    forall i, j :: 0 <= i < j < |s| ==> KeyLe(s[i], s[j])
  }

  /** Inserting `x` after the last entry not greater than it, scanning from
      the back. */
  function Insert(s: seq<Entry>, x: Entry): seq<Entry>
    decreases |s|
  {
    if |s| == 0 then [x]
    else if KeyLe(s[|s| - 1], x) then s + [x]
    else Insert(s[..|s| - 1], x) + [s[|s| - 1]]
  }

  /** `List.sort(lineColComparator)`, which is stable: an insertion sort. */
  function SortEntries(s: seq<Entry>): seq<Entry>
    decreases |s|
  {
    if |s| == 0 then [] else Insert(SortEntries(s[..|s| - 1]), s[|s| - 1])
  }

  /** Inserting into a sorted list keeps it sorted and adds exactly `x`. */
  lemma {:induction false} InsertSorted(s: seq<Entry>, x: Entry)
    requires Sorted(s)
    ensures Sorted(Insert(s, x))
    ensures multiset(Insert(s, x)) == multiset(s) + multiset{x}
    decreases |s|
  {
    if |s| > 0 {
      var init, last := s[..|s| - 1], s[|s| - 1];
      assert s == init + [last];
      if KeyLe(last, x) {
        AppendSorted(s, x);
      } else {
        assert Sorted(init);
        InsertSorted(init, x);
        var r := Insert(init, x);
        BelowLast(init, last, x, r);
        AppendSorted(r, last);
      }
    }
  }

  lemma AppendSorted(r: seq<Entry>, y: Entry)
    requires Sorted(r) && (|r| == 0 || KeyLe(r[|r| - 1], y))
    ensures Sorted(r + [y])
  {
  }

  /** Every entry of `init` plus `x` is below `last`, when `init + [last]` is
      sorted and `x` is below `last`. */
  lemma BelowLast(init: seq<Entry>, last: Entry, x: Entry, r: seq<Entry>)
    requires Sorted(init + [last]) && !KeyLe(last, x)
    requires multiset(r) == multiset(init) + multiset{x}
    requires Sorted(r)
    ensures |r| == 0 || KeyLe(r[|r| - 1], last)
  {
    if |r| > 0 {
      var y := r[|r| - 1];
      assert y in multiset(r);
      if y != x {
        assert y in init;
        var j :| 0 <= j < |init| && init[j] == y;
        assert (init + [last])[j] == init[j] && (init + [last])[|init|] == last;
      }
    }
  }

  /** The sorted list is ordered by line and column and is a permutation of
      what was added. */
  lemma {:induction false} SortEntriesSorts(s: seq<Entry>)
    ensures Sorted(SortEntries(s))
    ensures multiset(SortEntries(s)) == multiset(s)
    decreases |s|
  {
    if |s| > 0 {
      var init := s[..|s| - 1];
      assert s == init + [s[|s| - 1]];
      SortEntriesSorts(init);
      InsertSorted(SortEntries(init), s[|s| - 1]);
    }
  }

  /** The entries with the given start, in order. */
  function WithKey(s: seq<Entry>, line: int, column: int): seq<Entry>
    decreases |s|
  {
    if |s| == 0 then []
    else WithKey(s[..|s| - 1], line, column) +
         (if s[|s| - 1].line == line && s[|s| - 1].column == column then [s[|s| - 1]] else [])
  }

  lemma WithKeySnoc(s: seq<Entry>, x: Entry, line: int, column: int)
    ensures WithKey(s + [x], line, column) ==
      WithKey(s, line, column) + (if x.line == line && x.column == column then [x] else [])
  {
    assert (s + [x])[..|s|] == s;
  }

  lemma {:induction false} InsertStable(s: seq<Entry>, x: Entry, line: int, column: int)
    ensures WithKey(Insert(s, x), line, column) ==
      WithKey(s, line, column) + (if x.line == line && x.column == column then [x] else [])
    decreases |s|
  {
    if |s| == 0 {
      assert Insert(s, x) == [] + [x];
      WithKeySnoc([], x, line, column);
    } else {
      var last := s[|s| - 1];
      var init := s[..|s| - 1];
      assert s == init + [last];
      if KeyLe(last, x) {
        WithKeySnoc(s, x, line, column);
      } else {
        InsertStable(init, x, line, column);
        WithKeySnoc(Insert(init, x), last, line, column);
        WithKeySnoc(init, last, line, column);
        // `last` and `x` never share a start here, so their rows commute
        assert !(last.line == line && last.column == column && x.line == line && x.column == column);
      }
    }
  }

  /** Stability: for every start, the entries with that start keep their
      insertion order. */
  lemma {:induction false} SortStable(s: seq<Entry>, line: int, column: int)
    ensures WithKey(SortEntries(s), line, column) == WithKey(s, line, column)
    decreases |s|
  {
    if |s| > 0 {
      var init, x := s[..|s| - 1], s[|s| - 1];
      SortStable(init, line, column);
      InsertStable(SortEntries(init), x, line, column);
      assert s == init + [x];
      WithKeySnoc(init, x, line, column);
    }
  }

  /** Sorting a sorted list changes nothing. */
  lemma {:induction false} SortSorted(s: seq<Entry>)
    requires Sorted(s)
    ensures SortEntries(s) == s
    decreases |s|
  {
    if |s| > 0 {
      var init := s[..|s| - 1];
      assert Sorted(init);
      SortSorted(init);
      assert s == init + [s[|s| - 1]];
    }
  }

  /** The two lists. */
  datatype Context = Context(lines: seq<Entry>, issues: seq<Entry>)

  const NewContext: Context := Context([], [])

  /** `addLine(node, text)`: appended to the lines only. */
  function AddLine(c: Context, begin: Pos, text: string): (c': Context)
    ensures c'.lines == c.lines + [Entry(begin.line, begin.column, text)] && c'.issues == c.issues
  {
    c.(lines := c.lines + [Entry(begin.line, begin.column, text)])
  }

  /** `addIssue(node, text)`: appended to the issues only. */
  function AddIssue(c: Context, begin: Pos, text: string): (c': Context)
    ensures c'.issues == c.issues + [Entry(begin.line, begin.column, text)] && c'.lines == c.lines
  {
    c.(issues := c.issues + [Entry(begin.line, begin.column, text)])
  }

  /** The strings of a list of entries. */
  function Rendered(s: seq<Entry>): (r: seq<string>)
    ensures |r| == |s| && forall k :: 0 <= k < |s| ==> r[k] == EntryString(s[k])
  {
    seq(|s|, k requires 0 <= k < |s| => EntryString(s[k]))
  }

  /** `getLines()`: the list is sorted in place and returned. */
  function GetLines(c: Context): (res: (seq<string>, Context))
    ensures Sorted(res.1.lines) && multiset(res.1.lines) == multiset(c.lines)
    ensures res.0 == Rendered(res.1.lines) && res.1.issues == c.issues
  {
    SortEntriesSorts(c.lines);
    var sorted := SortEntries(c.lines);
    (Rendered(sorted), c.(lines := sorted))
  }

  /** `getIssues()`, likewise. */
  function GetIssues(c: Context): (res: (seq<string>, Context))
    ensures Sorted(res.1.issues) && multiset(res.1.issues) == multiset(c.issues)
    ensures res.0 == Rendered(res.1.issues) && res.1.lines == c.lines
  {
    SortEntriesSorts(c.issues);
    var sorted := SortEntries(c.issues);
    (Rendered(sorted), c.(issues := sorted))
  }

  /** Asking twice gives the same answer and leaves the context as it was. */
  lemma GettersIdempotent(c: Context)
    ensures GetLines(GetLines(c).1) == GetLines(c)
    ensures GetIssues(GetIssues(c).1) == GetIssues(c)
  {
    SortEntriesSorts(c.lines);
    SortEntriesSorts(c.issues);
    SortSorted(SortEntries(c.lines));
    SortSorted(SortEntries(c.issues));
  }
}
