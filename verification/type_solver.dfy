/** `ParsedTypeSolver`: resolving a dotted type name against source roots by
    trying candidate files and their directories, with three caches (file to
    unit, directory to units, name to answer).

    The caches are values threaded through each call (`Step`). Every cached
    function is paired with an uncached reference function (`FileTruth`,
    `DirTruth`, `ResolvingTruth`, `SolveTruth`); as long as every cache entry
    agrees with the reference (`Coherent`), the cached answer is the reference
    answer and the caches stay coherent. */
module ParsedTypeSolver {
  import opened Base
  import opened Strings
  import opened Syntax
  import JavaParserStuffImpl

  /** What the file system holds at a path. */
  datatype Entry =
    | RegularFile
    | Directory(names: seq<string>)   // in the order the directory stream lists them
    | OtherEntry                      // exists, but is neither

  /** The world the solver consults: the file system, the parsed units
      (`JavaParserStuff`), and `FileUtils.isValidPath` / `getParentPath`. */
  datatype Env = Env(
    fs: map<string, Entry>,
    units: JavaParserStuffImpl.Index,
    validPath: string -> bool,
    parentPath: string -> string)

  /** A `SymbolReference`: solved with the unit and in-file name of the
      declaration `Navigator.findType` found, or unsolved. */
  datatype Answer = Solved(unit: Unit, typeName: string) | Unsolved

  datatype Caches = Caches(files: map<string, Option<Unit>>, dirs: map<string, seq<Unit>>, found: map<string, Answer>)

  const NoCaches: Caches := Caches(map[], map[], map[])

  /** A result together with the caches after computing it. */
  datatype Step<+T> = Step(value: T, caches: Caches)

  /** Entries are only added, never changed or removed. */
  ghost predicate Grows(c: Caches, c': Caches)
  {
    (forall f :: f in c.files ==> f in c'.files && c'.files[f] == c.files[f]) &&
    (forall d :: d in c.dirs ==> d in c'.dirs && c'.dirs[d] == c.dirs[d]) &&
    (forall n :: n in c.found ==> n in c'.found && c'.found[n] == c.found[n])
  }

  lemma GrowsTrans(c: Caches, c': Caches, c'': Caches)
    requires Grows(c, c') && Grows(c', c'')
    ensures Grows(c, c'')
  {
  }

  // ---------------------------------------------------------------------------
  // Construction and the parent.

  datatype Solver = Solver(id: nat, srcDirs: seq<string>, parent: Option<nat>, caches: Caches)

  function SrcDirError(dir: string): Exc
  {
    Exc(IllegalState, Some("SrcDir does not exist or is not a directory: " + dir))
  }

  function IsDirectory(env: Env, p: string): bool
  {
    p in env.fs && env.fs[p].Directory?
  }

  /** The first source directory that is missing or not a directory. */
  function CheckDirs(env: Env, dirs: seq<string>): (r: Option<nat>)
    ensures r.None? <==> forall k :: 0 <= k < |dirs| ==> IsDirectory(env, dirs[k])
    ensures r.Some? ==>
      (r.value < |dirs| && !IsDirectory(env, dirs[r.value]) &&
       forall k :: 0 <= k < r.value ==> IsDirectory(env, dirs[k]))
    decreases |dirs|
  {
    if |dirs| == 0 then None
    else if !IsDirectory(env, dirs[0]) then Some(0)
    else
      match CheckDirs(env, dirs[1..])
      case None => None
      case Some(k) => Some(k + 1)
  }

  /** The constructor: every source directory must exist and be a directory;
      the caches start empty. */
  function NewSolver(env: Env, id: nat, srcDirs: seq<string>): (r: Outcome<Solver>)
    ensures r.Ok? <==> forall k :: 0 <= k < |srcDirs| ==> IsDirectory(env, srcDirs[k])
    ensures r.Ok? ==> r.value == Solver(id, srcDirs, None, NoCaches)
    ensures r.Fail? ==> exists k ::
      (0 <= k < |srcDirs| && !IsDirectory(env, srcDirs[k]) &&
       r.exc == SrcDirError(srcDirs[k]) && forall j :: 0 <= j < k ==> IsDirectory(env, srcDirs[j]))
  {
    match CheckDirs(env, srcDirs)
    case Some(k) => Fail(SrcDirError(srcDirs[k]))
    case None => Ok(Solver(id, srcDirs, None, NoCaches))
  }

  /** `setParent(parent)`, with solvers named by identity: a null parent, a
      second parent and the solver itself are refused, in that order. */
  function SetParent(s: Solver, parent: Option<nat>): (r: Outcome<Solver>)
    ensures r.Ok? <==> parent.Some? && s.parent.None? && parent.value != s.id
    ensures r.Ok? ==> r.value == s.(parent := parent)
    ensures parent.None? ==> r == Fail(Exc(NullPointer, None))
    ensures parent.Some? && s.parent.Some? ==>
      r == Fail(Exc(IllegalState, Some("This TypeSolver already has a parent.")))
    ensures parent.Some? && s.parent.None? && parent.value == s.id ==>
      r == Fail(Exc(IllegalState, Some("The parent of this TypeSolver cannot be itself.")))
  {
    if parent.None? then Fail(Exc(NullPointer, None))
    else if s.parent.Some? then Fail(Exc(IllegalState, Some("This TypeSolver already has a parent.")))
    else if parent.value == s.id then Fail(Exc(IllegalState, Some("The parent of this TypeSolver cannot be itself.")))
    else Ok(s.(parent := parent))
  }

  // ---------------------------------------------------------------------------
  // Files.

  /** What parsing a file gives: nothing unless it is a regular file, else the
      unit stored at that path, if any. */
  function FileTruth(env: Env, f: string): Option<Unit>
  {
    if f in env.fs && env.fs[f].RegularFile? then JavaParserStuffImpl.FindCompilationUnit(env.units, f) else None
  }

  ghost predicate FilesCoherent(env: Env, c: Caches)
  {
    forall f :: f in c.files ==> c.files[f] == FileTruth(env, f)
  }

  /** `parse(srcFile)`: a cached entry is returned as it is, whatever the file
      system now holds; otherwise the answer, present or not, is cached. */
  function Parse(env: Env, c: Caches, f: string): (r: Step<Option<Unit>>)
    ensures f in c.files ==> r == Step(c.files[f], c)
    ensures f !in c.files ==> r.value == FileTruth(env, f)
    ensures FilesCoherent(env, c) ==> r.value == FileTruth(env, f) && FilesCoherent(env, r.caches)
    ensures Grows(c, r.caches) && f in r.caches.files && r.caches.files[f] == r.value
    ensures r.caches.dirs == c.dirs && r.caches.found == c.found
  {
    if f in c.files then Step(c.files[f], c)
    else if f !in env.fs || !env.fs[f].RegularFile? then Step(None, c.(files := c.files[f := None]))
    else
      var u := JavaParserStuffImpl.FindCompilationUnit(env.units, f);
      Step(u, c.(files := c.files[f := u]))
  }

  /** Whether the directory scan looks at an entry: its name, lower-cased,
      ends in ".java". */
  predicate JavaName(name: string)
  {
    EndsWith(ToLowerAscii(name), ".java")
  }

  function DirChild(d: string, name: string): string
  {
    d + "/" + name
  }

  /** The units of a directory's Java entries, in listing order. */
  function FilesTruth(env: Env, d: string, names: seq<string>): (r: seq<Unit>)
    decreases |names|
  {
    if |names| == 0 then []
    else
      var rest := FilesTruth(env, d, names[1..]);
      assert forall k :: 1 <= k < |names| ==> names[k] == names[1..][k - 1];
      var here := FileTruth(env, DirChild(d, names[0]));
      if JavaName(names[0]) && here.Some? then [here.value] + rest else rest
  }

  /** Entry `k` of the listing is a Java name with a unit. */
  predicate Contributes(env: Env, d: string, names: seq<string>, k: int)
  {
    0 <= k < |names| && JavaName(names[k]) && FileTruth(env, DirChild(d, names[k])).Some?
  }

  /** The listing positions of the contributing entries, in order. */
  function Contributing(env: Env, d: string, names: seq<string>): seq<nat>
    decreases |names|
  {
    if |names| == 0 then []
    else
      (if Contributes(env, d, names, 0) then [0] else []) + Shift(Contributing(env, d, names[1..]))
  }

  /** Every position one further on. */
  function Shift(ps: seq<nat>): (r: seq<nat>)
    ensures |r| == |ps| && forall j :: 0 <= j < |ps| ==> r[j] == ps[j] + 1
  {
    seq(|ps|, j requires 0 <= j < |ps| => ps[j] + 1)
  }

  /** The directory's units are those of its contributing entries, one each,
      in listing order: the scan's "first unit declaring the name" is the
      first in the directory stream. */
  lemma FilesInListingOrder(env: Env, d: string, names: seq<string>)
    ensures var r, ps := FilesTruth(env, d, names), Contributing(env, d, names);
      && |r| == |ps|
      && (forall m :: 0 <= m < |ps| ==> ElementAt(env, d, names, r, ps, m))
      && Increasing(ps)
      && (forall k :: Contributes(env, d, names, k) ==> k in ps)
  {
    ListingElements(env, d, names);
    ListingIncreasing(env, d, names);
    ListingComplete(env, d, names);
  }

  /** Membership alone: every unit of the directory comes from a Java entry,
      and every Java entry with a unit contributes it. */
  lemma FilesMembership(env: Env, d: string, names: seq<string>)
    ensures forall u :: u in FilesTruth(env, d, names) ==> exists k ::
      (0 <= k < |names| && JavaName(names[k]) && FileTruth(env, DirChild(d, names[k])) == Some(u))
    ensures forall k :: 0 <= k < |names| && JavaName(names[k]) && FileTruth(env, DirChild(d, names[k])).Some? ==>
      FileTruth(env, DirChild(d, names[k])).value in FilesTruth(env, d, names)
  {
    var r, ps := FilesTruth(env, d, names), Contributing(env, d, names);
    FilesInListingOrder(env, d, names);
    forall u | u in r ensures exists k ::
      (0 <= k < |names| && JavaName(names[k]) && FileTruth(env, DirChild(d, names[k])) == Some(u))
    {
      var m :| 0 <= m < |r| && r[m] == u;
      assert ElementAt(env, d, names, r, ps, m);
      assert Contributes(env, d, names, ps[m]);
    }
    forall k | 0 <= k < |names| && JavaName(names[k]) && FileTruth(env, DirChild(d, names[k])).Some?
      ensures FileTruth(env, DirChild(d, names[k])).value in r
    {
      assert Contributes(env, d, names, k);
      var m :| 0 <= m < |ps| && ps[m] == k;
      assert ElementAt(env, d, names, r, ps, m);
    }
  }

  /** Contribution of an entry after the first is its contribution to the
      rest of the listing. */
  lemma ContributesRest(env: Env, d: string, names: seq<string>, k: int)
    requires |names| > 0 && 0 <= k
    ensures Contributes(env, d, names[1..], k) <==> Contributes(env, d, names, k + 1)
  {
    if k < |names| - 1 {
      assert names[1..][k] == names[k + 1];
    }
  }

  /** Unit `m` of `r` is the unit of entry `ps[m]` of the listing, a
      contributing entry. */
  predicate ElementAt(env: Env, d: string, names: seq<string>, r: seq<Unit>, ps: seq<nat>, m: int)
    requires 0 <= m < |r| && m < |ps|
  {
    Contributes(env, d, names, ps[m]) && r[m] == FileTruth(env, DirChild(d, names[ps[m]])).value
  }

  lemma {:induction false} ListingElements(env: Env, d: string, names: seq<string>)
    ensures var r, ps := FilesTruth(env, d, names), Contributing(env, d, names);
      && |r| == |ps|
      && (forall m :: 0 <= m < |ps| ==> ElementAt(env, d, names, r, ps, m))
    decreases |names|
  {
    if |names| > 0 {
      ListingElements(env, d, names[1..]);
      var head := Contributes(env, d, names, 0);
      ConsElements(env, d, names, FilesTruth(env, d, names[1..]), Contributing(env, d, names[1..]), head,
                   FilesTruth(env, d, names), Contributing(env, d, names));
    }
  }

  /** One step of the listing: the first entry, if it contributes, in front
      of the rest's units and positions, one further on. */
  lemma ConsElements(env: Env, d: string, names: seq<string>, r': seq<Unit>, ps': seq<nat>, head: bool,
                     r: seq<Unit>, ps: seq<nat>)
    requires |names| > 0 && |r'| == |ps'|
    requires forall j :: 0 <= j < |ps'| ==> ElementAt(env, d, names[1..], r', ps', j)
    requires head ==>
      Contributes(env, d, names, 0) && r == [FileTruth(env, DirChild(d, names[0])).value] + r' && ps == [0] + Shift(ps')
    requires !head ==> r == r' && ps == Shift(ps')
    ensures |r| == |ps| && forall m :: 0 <= m < |ps| ==> ElementAt(env, d, names, r, ps, m)
  {
    var off := if head then 1 else 0;
    forall m | off <= m < |ps| ensures ElementAt(env, d, names, r, ps, m) {
      var j := m - off;
      assert ps[m] == ps'[j] + 1 && r[m] == r'[j];
      assert ElementAt(env, d, names[1..], r', ps', j);
      ElementShift(env, d, names, r', ps', j);
    }
  }

  lemma ElementShift(env: Env, d: string, names: seq<string>, r': seq<Unit>, ps': seq<nat>, j: int)
    requires |names| > 0 && 0 <= j < |ps'| && j < |r'|
    requires Contributes(env, d, names[1..], ps'[j]) && r'[j] == FileTruth(env, DirChild(d, names[1..][ps'[j]])).value
    ensures Contributes(env, d, names, ps'[j] + 1) && r'[j] == FileTruth(env, DirChild(d, names[ps'[j] + 1])).value
  {
    ContributesRest(env, d, names, ps'[j]);
  }

  predicate Increasing(ps: seq<nat>)
  {
    forall m, m' :: 0 <= m < m' < |ps| ==> ps[m] < ps[m']
  }

  lemma {:induction false} ListingIncreasing(env: Env, d: string, names: seq<string>)
    ensures Increasing(Contributing(env, d, names))
    decreases |names|
  {
    if |names| > 0 {
      var ps' := Contributing(env, d, names[1..]);
      ListingIncreasing(env, d, names[1..]);
      var shifted := Shift(ps');
      assert Increasing(shifted);
      var ps := Contributing(env, d, names);
      if Contributes(env, d, names, 0) {
        assert ps == [0] + shifted;
        forall m, m' | 0 <= m < m' < |ps| ensures ps[m] < ps[m'] {
          assert ps[m'] == shifted[m' - 1];
          if m > 0 { assert ps[m] == shifted[m - 1]; }
        }
      } else {
        assert ps == shifted;
      }
    }
  }

  lemma {:induction false} ListingComplete(env: Env, d: string, names: seq<string>)
    ensures forall k :: Contributes(env, d, names, k) ==> k in Contributing(env, d, names)
    decreases |names|
  {
    if |names| > 0 {
      var rest := names[1..];
      ListingComplete(env, d, rest);
      var ps' := Contributing(env, d, rest);
      var shifted := Shift(ps');
      forall k | Contributes(env, d, names, k) ensures k in Contributing(env, d, names) {
        if k > 0 {
          ContributesRest(env, d, names, k - 1);
          var j :| 0 <= j < |ps'| && ps'[j] == k - 1;
          assert shifted[j] == k;
        }
      }
    }
  }

  /** The directory stream's loop, parsing through the file cache. */
  function ParseFiles(env: Env, c: Caches, d: string, names: seq<string>): (r: Step<seq<Unit>>)
    ensures FilesCoherent(env, c) ==> r.value == FilesTruth(env, d, names) && FilesCoherent(env, r.caches)
    ensures Grows(c, r.caches) && r.caches.dirs == c.dirs && r.caches.found == c.found
    decreases |names|
  {
    if |names| == 0 then Step([], c)
    else if JavaName(names[0]) then
      var s := Parse(env, c, DirChild(d, names[0]));
      var rest := ParseFiles(env, s.caches, d, names[1..]);
      GrowsTrans(c, s.caches, rest.caches);
      Step((if s.value.Some? then [s.value.value] else []) + rest.value, rest.caches)
    else ParseFiles(env, c, d, names[1..])
  }

  function DirError(d: string): Exc
  {
    Exc(Runtime, Some("Unable to parse directory due to an exception. Directory:" + d))
  }

  /** What parsing a directory gives: nothing for a missing one, an exception
      for one that is not a directory, else the units of its Java entries. */
  function DirTruth(env: Env, d: string): Outcome<seq<Unit>>
  {
    if d !in env.fs then Ok([])
    else
      match env.fs[d]
      case Directory(names) => Ok(FilesTruth(env, d, names))
      case _ => Fail(DirError(d))
  }

  ghost predicate DirsCoherent(env: Env, c: Caches)
  {
    forall d :: d in c.dirs ==> DirTruth(env, d) == Ok(c.dirs[d])
  }

  /** `parseDirectory(dir)` (never recursive): a cached list is returned as it
      is; otherwise the list is built, through the file cache, and cached;
      the exception of a non-directory leaves the caches as they were. */
  function ParseDirectory(env: Env, c: Caches, d: string): (r: Step<Outcome<seq<Unit>>>)
    ensures d in c.dirs ==> r == Step(Ok(c.dirs[d]), c)
    ensures FilesCoherent(env, c) && DirsCoherent(env, c) ==>
      r.value == DirTruth(env, d) && FilesCoherent(env, r.caches) && DirsCoherent(env, r.caches)
    ensures r.value.Fail? ==> r.caches == c
    ensures r.value.Ok? ==> d in r.caches.dirs && r.caches.dirs[d] == r.value.value
    ensures Grows(c, r.caches) && r.caches.found == c.found
  {
    if d in c.dirs then Step(Ok(c.dirs[d]), c)
    else if d !in env.fs then Step(Ok([]), c.(dirs := c.dirs[d := []]))
    else
      match env.fs[d]
      case Directory(names) =>
        var s := ParseFiles(env, c, d, names);
        Step(Ok(s.value), s.caches.(dirs := s.caches.dirs[d := s.value]))
      case _ => Step(Fail(DirError(d)), c)
  }

  // ---------------------------------------------------------------------------
  // Candidates.

  /** The root followed by each segment, each after a separator. */
  function PathOf(root: string, segs: seq<string>): string
    decreases |segs|
  {
    if |segs| == 0 then root else PathOf(root, segs[..|segs| - 1]) + "/" + segs[|segs| - 1]
  }

  /** For prefix length `i`: root/seg0/.../seg(i-1).java. */
  function CandidateFile(root: string, segs: seq<string>, i: nat): string
    requires 0 < i <= |segs|
  {
    PathOf(root, segs[..i]) + ".java"
  }

  /** The candidate file's parent directory. */
  function CandidateDir(root: string, segs: seq<string>, i: nat): string
    requires 0 < i <= |segs|
  {
    PathOf(root, segs[..i - 1])
  }

  /** The in-file name: segments i-1 .. n-1, joined by ".". */
  function TypeName(segs: seq<string>, i: nat): string
    requires 0 < i <= |segs|
  {
    Join(".", segs[i - 1..])
  }

  /** The candidate file lies directly in the scanned directory, is named after
      segment i-1, and the in-file name starts with that segment. */
  lemma CandidateShape(root: string, segs: seq<string>, i: nat)
    requires 0 < i <= |segs|
    ensures CandidateFile(root, segs, i) == DirChild(CandidateDir(root, segs, i), segs[i - 1] + ".java")
    ensures StartsWith(TypeName(segs, i), segs[i - 1])
    ensures i == |segs| ==> TypeName(segs, i) == segs[|segs| - 1]
  {
    assert segs[..i][..i - 1] == segs[..i - 1];
    var rest := segs[i - 1..];
    assert rest[0] == segs[i - 1];
    if |rest| > 1 {
      assert TypeName(segs, i) == rest[0] + "." + Join(".", rest[1..]);
      assert TypeName(segs, i)[..|rest[0]|] == rest[0];
    }
  }

  /** Splitting the in-file name on "." gives back the segments it was made
      of, when none is empty or holds a dot. */
  lemma TypeNameSplits(segs: seq<string>, i: nat)
    requires 0 < i <= |segs| && PlainSegments(segs, '.')
    ensures JavaSplit(TypeName(segs, i), '.') == segs[i - 1..]
  {
    var tail := segs[i - 1..];
    assert PlainSegments(tail, '.') by {
      assert forall k :: 0 <= k < |tail| ==> tail[k] == segs[i - 1 + k];
    }
    SplitOfJoin(tail, '.');
  }

  /** The first unit of the list that declares the name. */
  function FindIn(us: seq<Unit>, typeName: string): (r: Option<Answer>)
    ensures r.Some? <==> exists k :: 0 <= k < |us| && typeName in us[k].declared
    ensures r.Some? ==> exists k ::
      (0 <= k < |us| && typeName in us[k].declared &&
       r.value == Solved(us[k], typeName) && forall j :: 0 <= j < k ==> typeName !in us[j].declared)
    decreases |us|
  {
    if |us| == 0 then None
    else if typeName in us[0].declared then Some(Solved(us[0], typeName))
    else
      var r := FindIn(us[1..], typeName);
      FindInTail(us, typeName, r);
      r
  }

  lemma FindInTail(us: seq<Unit>, typeName: string, r: Option<Answer>)
    requires |us| > 0 && typeName !in us[0].declared
    requires r.Some? <==> exists k :: 0 <= k < |us[1..]| && typeName in us[1..][k].declared
    requires r.Some? ==> exists k ::
      (0 <= k < |us[1..]| && typeName in us[1..][k].declared &&
       r.value == Solved(us[1..][k], typeName) && forall j :: 0 <= j < k ==> typeName !in us[1..][j].declared)
    ensures r.Some? <==> exists k :: 0 <= k < |us| && typeName in us[k].declared
    ensures r.Some? ==> exists k ::
      (0 <= k < |us| && typeName in us[k].declared &&
       r.value == Solved(us[k], typeName) && forall j :: 0 <= j < k ==> typeName !in us[j].declared)
  {
    assert forall k :: 1 <= k < |us| ==> us[k] == us[1..][k - 1];
    if r.Some? {
      var k :| 0 <= k < |us[1..]| && typeName in us[1..][k].declared &&
        r.value == Solved(us[1..][k], typeName) && forall j :: 0 <= j < k ==> typeName !in us[1..][j].declared;
      forall j | 0 <= j < k + 1 ensures typeName !in us[j].declared {
        if j > 0 { assert us[j] == us[1..][j - 1]; }
      }
      assert us[k + 1] == us[1..][k];
    }
  }

  /** `findType` on a unit, if there is one. */
  function InUnit(u: Option<Unit>, typeName: string): Option<Answer>
  {
    if u.Some? && typeName in u.value.declared then Some(Solved(u.value, typeName)) else None
  }

  // ---------------------------------------------------------------------------
  // The reference resolution, without caches.

  /** The canonical file's answer for prefix `i`, if its path is valid. */
  function CanonicalTruth(env: Env, root: string, segs: seq<string>, i: nat): Option<Answer>
    requires 0 < i <= |segs|
  {
    var file := CandidateFile(root, segs, i);
    if env.validPath(file) then InUnit(FileTruth(env, file), TypeName(segs, i)) else None
  }

  /** The directory scanned for prefix `i`. */
  function ScanDir(env: Env, root: string, segs: seq<string>, i: nat): string
    requires 0 < i <= |segs|
  {
    var file := CandidateFile(root, segs, i);
    if env.validPath(file) then CandidateDir(root, segs, i) else env.parentPath(file)
  }

  /** The answer of prefix `i` alone: the canonical file, else the scan. */
  function HitAt(env: Env, root: string, segs: seq<string>, i: nat): Outcome<Option<Answer>>
    requires 0 < i <= |segs|
  {
    var canonical := CanonicalTruth(env, root, segs, i);
    if canonical.Some? then Ok(canonical)
    else
      var dir := ScanDir(env, root, segs, i);
      if !env.validPath(dir) then Ok(None)
      else
        match DirTruth(env, dir)
        case Fail(e) => Fail(e)
        case Ok(us) => Ok(FindIn(us, TypeName(segs, i)))
  }

  /** `resolving(nameElements, srcDir)` for prefixes `i` down to 1. */
  function ResolvingTruth(env: Env, root: string, segs: seq<string>, i: nat): Outcome<Option<Answer>>
    requires i <= |segs|
    decreases i
  {
    if i == 0 then Ok(None)
    else
      match HitAt(env, root, segs, i)
      case Fail(e) => Fail(e)
      case Ok(Some(a)) => Ok(Some(a))
      case Ok(None) => ResolvingTruth(env, root, segs, i - 1)
  }

  /** The roots in order; the first that resolves wins. */
  function SolveFrom(env: Env, roots: seq<string>, segs: seq<string>): Outcome<Answer>
    decreases |roots|
  {
    if |roots| == 0 then Ok(Unsolved)
    else
      match ResolvingTruth(env, roots[0], segs, |segs|)
      case Fail(e) => Fail(e)
      case Ok(Some(a)) => Ok(a)
      case Ok(None) => SolveFrom(env, roots[1..], segs)
  }

  /** `tryToSolveTypeUncached(name)`. */
  function SolveTruth(env: Env, roots: seq<string>, name: string): Outcome<Answer>
  {
    SolveFrom(env, roots, JavaSplit(name, '.'))
  }

  ghost predicate Coherent(env: Env, roots: seq<string>, c: Caches)
  {
    FilesCoherent(env, c) && DirsCoherent(env, c) &&
    forall n :: n in c.found ==> SolveTruth(env, roots, n) == Ok(c.found[n])
  }

  lemma EmptyCachesCoherent(env: Env, roots: seq<string>)
    ensures Coherent(env, roots, NoCaches)
  {
  }

  // ---------------------------------------------------------------------------
  // The cached resolution.

  /** The canonical file for prefix `i`, through the file cache. */
  function Canonical(env: Env, c: Caches, root: string, segs: seq<string>, i: nat): (r: Step<Option<Answer>>)
    requires 0 < i <= |segs|
    ensures FilesCoherent(env, c) ==> r.value == CanonicalTruth(env, root, segs, i) && FilesCoherent(env, r.caches)
    ensures Grows(c, r.caches) && r.caches.dirs == c.dirs && r.caches.found == c.found
  {
    var file := CandidateFile(root, segs, i);
    if env.validPath(file) then
      var s := Parse(env, c, file);
      Step(InUnit(s.value, TypeName(segs, i)), s.caches)
    else Step(None, c)
  }

  /** Prefix `i` alone, through the caches. */
  function Hit(env: Env, c: Caches, root: string, segs: seq<string>, i: nat): (r: Step<Outcome<Option<Answer>>>)
    requires 0 < i <= |segs|
    ensures FilesCoherent(env, c) && DirsCoherent(env, c) ==>
      r.value == HitAt(env, root, segs, i) && FilesCoherent(env, r.caches) && DirsCoherent(env, r.caches)
    // a match in the canonical file is answered without listing any directory
    ensures FilesCoherent(env, c) && CanonicalTruth(env, root, segs, i).Some? ==>
      r.value == Ok(CanonicalTruth(env, root, segs, i)) && r.caches.dirs == c.dirs
    ensures Grows(c, r.caches) && r.caches.found == c.found
  {
    var s := Canonical(env, c, root, segs, i);
    if s.value.Some? then Step(Ok(s.value), s.caches)
    else
      var dir := ScanDir(env, root, segs, i);
      if !env.validPath(dir) then Step(Ok(None), s.caches)
      else
        var t := ParseDirectory(env, s.caches, dir);
        GrowsTrans(c, s.caches, t.caches);
        match t.value
        case Fail(e) => Step(Fail(e), t.caches)
        case Ok(us) => Step(Ok(FindIn(us, TypeName(segs, i))), t.caches)
  }

  /** `resolving`, through the caches. */
  function Resolving(env: Env, c: Caches, root: string, segs: seq<string>, i: nat): (r: Step<Outcome<Option<Answer>>>)
    requires i <= |segs|
    ensures FilesCoherent(env, c) && DirsCoherent(env, c) ==>
      r.value == ResolvingTruth(env, root, segs, i) && FilesCoherent(env, r.caches) && DirsCoherent(env, r.caches)
    ensures Grows(c, r.caches) && r.caches.found == c.found
    decreases i
  {
    if i == 0 then Step(Ok(None), c)
    else
      var s := Hit(env, c, root, segs, i);
      match s.value
      case Fail(e) => Step(Fail(e), s.caches)
      case Ok(Some(a)) => Step(Ok(Some(a)), s.caches)
      case Ok(None) =>
        var t := Resolving(env, s.caches, root, segs, i - 1);
        GrowsTrans(c, s.caches, t.caches);
        t
  }

  /** The loop over the source roots, through the caches. */
  function Solve(env: Env, c: Caches, roots: seq<string>, segs: seq<string>): (r: Step<Outcome<Answer>>)
    ensures FilesCoherent(env, c) && DirsCoherent(env, c) ==>
      r.value == SolveFrom(env, roots, segs) && FilesCoherent(env, r.caches) && DirsCoherent(env, r.caches)
    ensures Grows(c, r.caches) && r.caches.found == c.found
    decreases |roots|
  {
    if |roots| == 0 then Step(Ok(Unsolved), c)
    else
      var s := Resolving(env, c, roots[0], segs, |segs|);
      match s.value
      case Fail(e) => Step(Fail(e), s.caches)
      case Ok(Some(a)) => Step(Ok(a), s.caches)
      case Ok(None) =>
        var t := Solve(env, s.caches, roots[1..], segs);
        GrowsTrans(c, s.caches, t.caches);
        t
  }

  /** `tryToSolveType(name)`: a cached answer, solved or unsolved, is returned
      as it is and nothing else is consulted; otherwise the name is resolved
      and its answer cached. An exception is not cached. */
  function TryToSolveType(env: Env, c: Caches, roots: seq<string>, name: string): (r: Step<Outcome<Answer>>)
    ensures name in c.found ==> r == Step(Ok(c.found[name]), c)
    ensures Coherent(env, roots, c) ==> r.value == SolveTruth(env, roots, name) && Coherent(env, roots, r.caches)
    ensures r.value.Ok? ==> name in r.caches.found && r.caches.found[name] == r.value.value
    ensures r.value.Fail? ==> r.caches.found == c.found
    ensures Grows(c, r.caches)
  {
    if name in c.found then Step(Ok(c.found[name]), c)
    else
      var s := Solve(env, c, roots, JavaSplit(name, '.'));
      match s.value
      case Fail(e) => Step(Fail(e), s.caches)
      case Ok(a) => Step(Ok(a), s.caches.(found := s.caches.found[name := a]))
  }

  // ---------------------------------------------------------------------------
  // Properties.

  /** Asking again returns the same answer and changes no cache. */
  lemma SolveIdempotent(env: Env, c: Caches, roots: seq<string>, name: string)
    requires TryToSolveType(env, c, roots, name).value.Ok?
    ensures var s := TryToSolveType(env, c, roots, name);
      TryToSolveType(env, s.caches, roots, name) == s
  {
  }

  /** From coherent caches, empty ones among them, any sequence of requests
      answers as the uncached resolution does. */
  lemma {:induction false} SequenceMatchesReference(env: Env, roots: seq<string>, c: Caches, names: seq<string>)
    requires Coherent(env, roots, c)
    ensures forall k :: 0 <= k < |names| ==> Answers(env, c, roots, names)[k] == SolveTruth(env, roots, names[k])
    decreases |names|
  {
    if |names| > 0 {
      var s := TryToSolveType(env, c, roots, names[0]);
      SequenceMatchesReference(env, roots, s.caches, names[1..]);
    }
  }

  /** The answers to a sequence of requests, each with the caches the previous
      one left. */
  function Answers(env: Env, c: Caches, roots: seq<string>, names: seq<string>): (r: seq<Outcome<Answer>>)
    ensures |r| == |names|
    decreases |names|
  {
    if |names| == 0 then []
    else
      var s := TryToSolveType(env, c, roots, names[0]);
      [s.value] + Answers(env, s.caches, roots, names[1..])
  }

  /** A match in the canonical file is the prefix's answer, whatever the scan
      of its directory would give, an exception included. */
  lemma CanonicalBeatsScan(env: Env, c: Caches, root: string, segs: seq<string>, i: nat)
    requires 0 < i <= |segs| && CanonicalTruth(env, root, segs, i).Some?
    ensures HitAt(env, root, segs, i) == Ok(CanonicalTruth(env, root, segs, i))
    ensures FilesCoherent(env, c) ==>
      Hit(env, c, root, segs, i).value == Ok(CanonicalTruth(env, root, segs, i)) &&
      Hit(env, c, root, segs, i).caches.dirs == c.dirs
    ensures CanonicalTruth(env, root, segs, i).value ==
      Solved(FileTruth(env, CandidateFile(root, segs, i)).value, TypeName(segs, i))
  {
  }

  /** Without a canonical match, the prefix's answer is the first unit of the
      candidate's directory that declares the in-file name. */
  lemma ScanAnswers(env: Env, root: string, segs: seq<string>, i: nat)
    requires 0 < i <= |segs| && CanonicalTruth(env, root, segs, i).None?
    requires env.validPath(ScanDir(env, root, segs, i))
    requires DirTruth(env, ScanDir(env, root, segs, i)).Ok?
    ensures HitAt(env, root, segs, i) == Ok(FindIn(DirTruth(env, ScanDir(env, root, segs, i)).value, TypeName(segs, i)))
  {
  }

  /** Longest prefix first: when prefixes `i` down to `k + 1` give nothing and
      prefix `k` gives an answer, that answer is the root's. */
  lemma {:induction false} LongestPrefixWins(env: Env, root: string, segs: seq<string>, i: nat, k: nat, a: Answer)
    requires 0 < k <= i <= |segs|
    requires forall j :: k < j <= i ==> HitAt(env, root, segs, j) == Ok(None)
    requires HitAt(env, root, segs, k) == Ok(Some(a))
    ensures ResolvingTruth(env, root, segs, i) == Ok(Some(a))
    decreases i
  {
    if i > k {
      LongestPrefixWins(env, root, segs, i - 1, k, a);
    }
  }

  /** Roots in order: when the roots before `k` give nothing and root `k`
      gives an answer, that is the answer; no root at all gives unsolved. */
  lemma {:induction false} FirstRootWins(env: Env, roots: seq<string>, segs: seq<string>, k: nat, a: Answer)
    requires k < |roots|
    requires forall j :: 0 <= j < k ==> ResolvingTruth(env, roots[j], segs, |segs|) == Ok(None)
    requires ResolvingTruth(env, roots[k], segs, |segs|) == Ok(Some(a))
    ensures SolveFrom(env, roots, segs) == Ok(a)
    decreases k
  {
    if k > 0 {
      assert forall j :: 0 <= j < k - 1 ==> roots[1..][j] == roots[j + 1];
      FirstRootWins(env, roots[1..], segs, k - 1, a);
    }
  }

  lemma {:induction false} NoRootUnsolved(env: Env, roots: seq<string>, segs: seq<string>)
    requires forall j :: 0 <= j < |roots| ==> ResolvingTruth(env, roots[j], segs, |segs|) == Ok(None)
    ensures SolveFrom(env, roots, segs) == Ok(Unsolved)
    decreases |roots|
  {
    if |roots| > 0 {
      assert forall j :: 0 <= j < |roots| - 1 ==> roots[1..][j] == roots[j + 1];
      NoRootUnsolved(env, roots[1..], segs);
    }
  }

  /** A solved answer names a unit that declares the in-file name of some
      prefix, found in that prefix's canonical file or scanned directory. */
  lemma {:induction false} SolvedComesFromAPrefix(env: Env, root: string, segs: seq<string>, i: nat)
    requires i <= |segs| && ResolvingTruth(env, root, segs, i).Ok? && ResolvingTruth(env, root, segs, i).value.Some?
    ensures var a := ResolvingTruth(env, root, segs, i).value.value;
      a.Solved? && exists j :: 0 < j <= i && a.typeName == TypeName(segs, j) && a.typeName in a.unit.declared
    decreases i
  {
    if HitAt(env, root, segs, i) != Ok(None) {
      var h := HitAt(env, root, segs, i).value.value;
      assert h.Solved? && h.typeName == TypeName(segs, i) && h.typeName in h.unit.declared;
    } else {
      SolvedComesFromAPrefix(env, root, segs, i - 1);
    }
  }
}
