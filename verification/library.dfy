/** `Library`: a library's source directories under
    root/group/artifact/version, and the mapping of an input file to its place
    under an output directory. Paths are strings; `java.io.File`'s joining of a
    parent and a child and its `getAbsolutePath` are modelled, its
    normalisation of repeated or trailing separators is not. */
module Library {
  import opened Base
  import opened Strings

  /** `new File(parent, child)` on Unix: an empty child is the parent itself. */
  function ChildPath(parent: string, child: string): (r: string)
    ensures child == "" ==> r == parent
    ensures child != "" && child[0] != '/' && parent != "/" ==> r == parent + "/" + child
    ensures StartsWith(r, parent)
  {
    if child == "" then parent
    else if child[0] == '/' then
      if parent == "/" then assert child[..1] == "/"; child
      else assert (parent + child)[..|parent|] == parent; parent + child
    else if parent == "/" then assert (parent + child)[..|parent|] == parent; parent + child
    else assert (parent + "/" + child)[..|parent|] == parent; parent + "/" + child
  }

  /** `getAbsolutePath()` against the working directory `cwd`. */
  function Abs(cwd: string, p: string): (r: string)
    ensures StartsWith(p, "/") ==> r == p
    ensures !StartsWith(p, "/") ==> r == ChildPath(cwd, p)
  {
    if StartsWith(p, "/") then p else ChildPath(cwd, p)
  }

  /** root/group/artifact/version, joined with "/". */
  function BasePath(root: string, group: string, artifact: string, version: string): (r: string)
    ensures r == root + "/" + group + "/" + artifact + "/" + version
  {
    var parts := [root, group, artifact, version];
    assert parts[1..] == [group, artifact, version] && parts[1..][1..] == [artifact, version];
    assert Join("/", [artifact, version]) == artifact + "/" + version by {
      assert [artifact, version][1..] == [version];
    }
    var tail := group + "/" + (artifact + "/" + version);
    assert Join("/", parts[1..]) == tail;
    assert tail == group + "/" + artifact + "/" + version;
    assert root + "/" + tail == root + "/" + group + "/" + artifact + "/" + version;
    Join("/", parts)
  }

  datatype Library = Library(group: string, artifact: string, version: string, srcDirs: seq<string>)

  /** The constructor: the base alone when there are no modules, else one
      directory per module, in order. */
  function NewLibrary(root: string, group: string, artifact: string, version: string,
                      modules: seq<string>): (l: Library)
    ensures l.group == group && l.artifact == artifact && l.version == version
    ensures |modules| == 0 ==> l.srcDirs == [BasePath(root, group, artifact, version)]
    ensures |modules| > 0 ==> |l.srcDirs| == |modules|
    // each module's directory is the base, a separator, and the module's name
    ensures forall k :: 0 <= k < |modules| && modules[k] != "" && modules[k][0] != '/' ==>
      var base := BasePath(root, group, artifact, version);
      StartsWith(l.srcDirs[k], base + "/") && l.srcDirs[k][|base| + 1..] == modules[k]
  {
    var base := BasePath(root, group, artifact, version);
    if |modules| == 0 then Library(group, artifact, version, [base])
    else Library(group, artifact, version, seq(|modules|, k requires 0 <= k < |modules| => ChildPath(base, modules[k])))
  }

  /** With modules, the base is a source directory exactly when some module is
      the empty name. */
  lemma BaseIncludedOnlyForEmptyModule(root: string, group: string, artifact: string, version: string,
                                       modules: seq<string>)
    requires |modules| > 0
    requires forall k :: 0 <= k < |modules| ==> modules[k] == "" || modules[k][0] != '/'
    ensures BasePath(root, group, artifact, version) in NewLibrary(root, group, artifact, version, modules).srcDirs
        <==> "" in modules
  {
    var base := BasePath(root, group, artifact, version);
    var dirs := NewLibrary(root, group, artifact, version, modules).srcDirs;
    if base in dirs {
      var k :| 0 <= k < |dirs| && dirs[k] == base;
      assert modules[k] == "";
    }
    if "" in modules {
      var k :| 0 <= k < |modules| && modules[k] == "";
      assert dirs[k] == base;
    }
  }

  /** The part of a library's directory below its root. */
  function Layout(l: Library): string
  {
    "/" + l.group + "/" + l.artifact + "/" + l.version
  }

  /** `getOutputDir(relativeTo)`: the same layout under another root, made
      absolute against the working directory. */
  function GetOutputDir(l: Library, cwd: string, relativeTo: string): (r: string)
    ensures EndsWith(r, Layout(l))
    ensures StartsWith(relativeTo, "/") ==> r == relativeTo + Layout(l)
    ensures relativeTo != "" && !StartsWith(relativeTo, "/") ==> StartsWith(r, cwd)
    // a relative root is resolved against the working directory
    ensures relativeTo != "" && !StartsWith(relativeTo, "/") && cwd != "/" ==>
      r == cwd + "/" + relativeTo + Layout(l)
    ensures relativeTo != "" && !StartsWith(relativeTo, "/") && cwd == "/" ==>
      r == "/" + relativeTo + Layout(l)
    // an empty root leaves a path that is already absolute
    ensures relativeTo == "" ==> r == Layout(l)
  {
    var b := BasePath(relativeTo, l.group, l.artifact, l.version);
    assert b == relativeTo + Layout(l);
    OutputDirCases(cwd, relativeTo, Layout(l));
    Abs(cwd, b)
  }

  /** The cases of resolving `relativeTo + suffix` against `cwd`, for a
      suffix that starts with a separator. */
  lemma OutputDirCases(cwd: string, relativeTo: string, suffix: string)
    requires StartsWith(suffix, "/")
    ensures var r := Abs(cwd, relativeTo + suffix);
      && EndsWith(r, suffix)
      && (StartsWith(relativeTo, "/") ==> r == relativeTo + suffix)
      && (relativeTo != "" && !StartsWith(relativeTo, "/") ==> StartsWith(r, cwd))
      && (relativeTo != "" && !StartsWith(relativeTo, "/") && cwd != "/" ==> r == cwd + "/" + relativeTo + suffix)
      && (relativeTo != "" && !StartsWith(relativeTo, "/") && cwd == "/" ==> r == "/" + relativeTo + suffix)
      && (relativeTo == "" ==> r == suffix)
  {
    var b := relativeTo + suffix;
    var r := Abs(cwd, b);
    if relativeTo == "" {
      assert b == suffix;
      AbsoluteKept(cwd, b);
    } else if StartsWith(relativeTo, "/") {
      assert b[..1] == relativeTo[..1];
      AbsoluteKept(cwd, b);
    } else {
      assert b[0] == relativeTo[0] && b[..1] != "/";
      assert r == ChildPath(cwd, b);
      if cwd == "/" {
        assert r == cwd + b;
      } else {
        assert r == cwd + "/" + b;
      }
      assert cwd + "/" + b == cwd + "/" + relativeTo + suffix;
      assert "/" + b == "/" + relativeTo + suffix;
      assert r == (r[..|r| - |b|]) + b;
      assert r[|r| - |suffix|..] == suffix;
    }
  }

  lemma AbsoluteKept(cwd: string, b: string)
    requires StartsWith(b, "/")
    ensures Abs(cwd, b) == b && EndsWith(b, b)
  {
  }

  /** Asked for the library's own root, `getOutputDir` gives the absolute
      path of the source directory of a library without modules. */
  lemma OutputDirOfOwnRoot(root: string, group: string, artifact: string, version: string, cwd: string)
    ensures var l := NewLibrary(root, group, artifact, version, []);
      GetOutputDir(l, cwd, root) == Abs(cwd, l.srcDirs[0])
  {
  }

  /** Whether the source directory's absolute path is a raw string prefix of
      the absolute input path. */
  predicate Covers(cwd: string, dir: string, input: string)
  {
    StartsWith(Abs(cwd, input), Abs(cwd, dir))
  }

  /** The absolute paths of the covering directories, in order. */
  function Covering(dirs: seq<string>, cwd: string, input: string): seq<string>
    decreases |dirs|
  {
    if |dirs| == 0 then []
    else (if Covers(cwd, dirs[0], input) then [Abs(cwd, dirs[0])] else []) + Covering(dirs[1..], cwd, input)
  }

  /** `k` is the one directory that covers the input. */
  predicate OnlyCover(dirs: seq<string>, cwd: string, input: string, k: int)
  {
    0 <= k < |dirs| && Covers(cwd, dirs[k], input) &&
    forall j :: 0 <= j < |dirs| && j != k ==> !Covers(cwd, dirs[j], input)
  }

  lemma {:induction false} CoveringOne(dirs: seq<string>, cwd: string, input: string)
    ensures |Covering(dirs, cwd, input)| == 1 <==> exists k :: OnlyCover(dirs, cwd, input, k)
    ensures forall k :: OnlyCover(dirs, cwd, input, k) ==> Covering(dirs, cwd, input) == [Abs(cwd, dirs[k])]
    decreases |dirs|
  {
    if |dirs| > 0 {
      var rest := dirs[1..];
      CoveringOne(rest, cwd, input);
      forall k | OnlyCover(dirs, cwd, input, k)
        ensures Covering(dirs, cwd, input) == [Abs(cwd, dirs[k])]
      {
        if k == 0 {
          assert forall j :: 0 <= j < |rest| ==> !Covers(cwd, rest[j], input) by {
            forall j | 0 <= j < |rest| ensures !Covers(cwd, rest[j], input) {
              assert rest[j] == dirs[j + 1];
            }
          }
          NoCovering(rest, cwd, input);
        } else {
          assert OnlyCover(rest, cwd, input, k - 1) by {
            forall j | 0 <= j < |rest| && j != k - 1 ensures !Covers(cwd, rest[j], input) {
              assert rest[j] == dirs[j + 1];
            }
          }
        }
      }
      if |Covering(dirs, cwd, input)| == 1 {
        if Covers(cwd, dirs[0], input) {
          assert |Covering(rest, cwd, input)| == 0;
          NoneCovers(rest, cwd, input);
          assert OnlyCover(dirs, cwd, input, 0) by {
            forall j | 0 <= j < |dirs| && j != 0 ensures !Covers(cwd, dirs[j], input) {
              assert dirs[j] == rest[j - 1];
            }
          }
        } else {
          var k :| OnlyCover(rest, cwd, input, k);
          assert OnlyCover(dirs, cwd, input, k + 1) by {
            forall j | 0 <= j < |dirs| && j != k + 1 ensures !Covers(cwd, dirs[j], input) {
              if j > 0 {
                assert dirs[j] == rest[j - 1];
              }
            }
          }
        }
      }
    }
  }

  lemma {:induction false} NoCovering(dirs: seq<string>, cwd: string, input: string)
    requires forall j :: 0 <= j < |dirs| ==> !Covers(cwd, dirs[j], input)
    ensures Covering(dirs, cwd, input) == []
    decreases |dirs|
  {
    if |dirs| > 0 {
      NoCovering(dirs[1..], cwd, input);
    }
  }

  lemma {:induction false} NoneCovers(dirs: seq<string>, cwd: string, input: string)
    requires Covering(dirs, cwd, input) == []
    ensures forall j :: 0 <= j < |dirs| ==> !Covers(cwd, dirs[j], input)
    decreases |dirs|
  {
    if |dirs| > 0 {
      NoneCovers(dirs[1..], cwd, input);
      forall j | 0 <= j < |dirs| ensures !Covers(cwd, dirs[j], input) {
        if j > 0 {
          assert dirs[j] == dirs[1..][j - 1];
        }
      }
    }
  }

  function Unresolvable(input: string): Exc
  {
    Exc(IllegalState, Some("Unresolvable file " + input))
  }

  /** `getOutputFile(inputFile, targetDir)` as written: the covering
      directory's path is replaced by `targetDir` wherever it occurs in the
      input path (`String.replace`). */
  function GetOutputFileAsWritten(l: Library, cwd: string, input: string, targetDir: string): (r: Outcome<string>)
    ensures r.Ok? <==> exists k :: OnlyCover(l.srcDirs, cwd, input, k)
    ensures r.Fail? ==> r.exc == Unresolvable(input)
    ensures forall k :: OnlyCover(l.srcDirs, cwd, input, k) ==>
      r == Ok(ReplaceAll(Abs(cwd, input), Abs(cwd, l.srcDirs[k]), targetDir))
  {
    CoveringOne(l.srcDirs, cwd, input);
    var matches := Covering(l.srcDirs, cwd, input);
    if |matches| != 1 then Fail(Unresolvable(input))
    else Ok(ReplaceAll(Abs(cwd, input), matches[0], targetDir))
  }

  /** The same with only the leading directory path replaced, so the input's
      path below its source directory is kept under `targetDir`. */
  function GetOutputFile(l: Library, cwd: string, input: string, targetDir: string): (r: Outcome<string>)
    ensures r.Ok? <==> exists k :: OnlyCover(l.srcDirs, cwd, input, k)
    ensures r.Fail? ==> r.exc == Unresolvable(input)
    ensures forall k :: OnlyCover(l.srcDirs, cwd, input, k) ==>
      var dir := Abs(cwd, l.srcDirs[k]);
      r.Ok? && StartsWith(r.value, targetDir) && r.value[|targetDir|..] == Abs(cwd, input)[|dir|..]
  {
    CoveringOne(l.srcDirs, cwd, input);
    var matches := Covering(l.srcDirs, cwd, input);
    if |matches| != 1 then Fail(Unresolvable(input))
    else
      var abs := Abs(cwd, input);
      assert StartsWith(abs, matches[0]);
      Ok(targetDir + abs[|matches[0]|..])
  }

  /** Relocating a file and taking its relative part back off the target gives
      the file's path below its source directory. */
  lemma OutputFileKeepsRelativePath(l: Library, cwd: string, k: nat, rel: string, targetDir: string)
    requires k < |l.srcDirs| && StartsWith(Abs(cwd, l.srcDirs[k]), "/")
    requires OnlyCover(l.srcDirs, cwd, Abs(cwd, l.srcDirs[k]) + rel, k)
    ensures GetOutputFile(l, cwd, Abs(cwd, l.srcDirs[k]) + rel, targetDir) == Ok(targetDir + rel)
  {
    var dir := Abs(cwd, l.srcDirs[k]);
    var input := dir + rel;
    assert input[..1] == dir[..1];
    assert Abs(cwd, input) == input;
    assert input[|dir|..] == rel;
    var r := GetOutputFile(l, cwd, input, targetDir);
    assert r.value == r.value[..|targetDir|] + r.value[|targetDir|..];
  }

  lemma ReplaceTwice(d: string, t: string, o: string)
    requires |d| > 0
    ensures ReplaceAll(d + d + t, d, o) == o + o + ReplaceAll(t, d, o)
  {
    assert StartsWith(d + d + t, d) by { assert (d + d + t)[..|d|] == d; }
    assert (d + d + t)[|d|..] == d + t;
    assert StartsWith(d + t, d) by { assert (d + t)[..|d|] == d; }
    assert (d + t)[|d|..] == t;
  }

  /** An input whose path repeats its absolute source directory `d`: as
      written both occurrences are replaced, while only the leading one is the
      file's source directory. */
  lemma RepeatedDirectoryCounterexample(l: Library, cwd: string, k: nat, d: string, t: string, o: string)
    requires k < |l.srcDirs| && d == Abs(cwd, l.srcDirs[k]) && StartsWith(d, "/")
    requires OnlyCover(l.srcDirs, cwd, d + d + t, k)
    ensures GetOutputFileAsWritten(l, cwd, d + d + t, o) == Ok(o + o + ReplaceAll(t, d, o))
    ensures GetOutputFile(l, cwd, d + d + t, o) == Ok(o + d + t)
  {
    AsWrittenReplaces(l, cwd, k, d, d + d + t, o);
    ReplaceTwice(d, t, o);
    CorrectedOnDoubled(l, cwd, k, d, t, o);
  }

  lemma CorrectedOnDoubled(l: Library, cwd: string, k: nat, d: string, t: string, o: string)
    requires k < |l.srcDirs| && d == Abs(cwd, l.srcDirs[k]) && StartsWith(d, "/")
    requires OnlyCover(l.srcDirs, cwd, d + d + t, k)
    ensures GetOutputFile(l, cwd, d + d + t, o) == Ok(o + d + t)
  {
    assert d + d + t == d + (d + t);
    OutputFileKeepsRelativePath(l, cwd, k, d + t, o);
    assert o + (d + t) == o + d + t;
  }

  lemma AsWrittenReplaces(l: Library, cwd: string, k: nat, d: string, input: string, o: string)
    requires k < |l.srcDirs| && d == Abs(cwd, l.srcDirs[k]) && StartsWith(d, "/")
    requires OnlyCover(l.srcDirs, cwd, input, k) && StartsWith(input, d)
    ensures GetOutputFileAsWritten(l, cwd, input, o) == Ok(ReplaceAll(input, d, o))
  {
    assert input[..1] == d[..1];
    assert Abs(cwd, input) == input;
  }

  /** The smallest library, root "/r" with group "g", artifact "a", version
      "1" and no modules, so its one source directory is "/r/g/a/1"; the input
      "/r/g/a/1/r/g/a/1/X.java" lands at "/out/out/X.java" as written and at
      "/out/r/g/a/1/X.java" when only the leading directory is replaced. */
  lemma RepeatedDirectoryExample()
    ensures var l := NewLibrary("/r", "g", "a", "1", []);
      var d := BasePath("/r", "g", "a", "1");
      GetOutputFileAsWritten(l, "/w", d + d + "/X.java", "/out") == Ok("/out" + "/out" + ReplaceAll("/X.java", d, "/out")) &&
      GetOutputFile(l, "/w", d + d + "/X.java", "/out") == Ok("/out" + d + "/X.java")
  {
    var l := NewLibrary("/r", "g", "a", "1", []);
    var d := BasePath("/r", "g", "a", "1");
    assert l.srcDirs == [d];
    assert d[..1] == "/";
    assert Abs("/w", d) == d;
    var input := d + d + "/X.java";
    assert input[..|d|] == d;
    assert OnlyCover(l.srcDirs, "/w", input, 0);
    RepeatedDirectoryCounterexample(l, "/w", 0, d, "/X.java", "/out");
  }

  /** The prefix test is on raw strings: with modules "lib" and "lib2", a file
      of "lib2" is covered by both directories and cannot be relocated. */
  lemma SiblingPrefixIsAmbiguous(root: string, group: string, artifact: string, version: string, name: string)
    requires StartsWith(root, "/")
    ensures var l := NewLibrary(root, group, artifact, version, ["lib", "lib2"]);
      GetOutputFile(l, "/w", BasePath(root, group, artifact, version) + "/lib2/" + name, "/out").Fail?
  {
    var base := BasePath(root, group, artifact, version);
    var l := NewLibrary(root, group, artifact, version, ["lib", "lib2"]);
    var input := base + "/lib2/" + name;
    assert |base| > 1;
    assert l.srcDirs[0] == ChildPath(base, "lib") == base + "/" + "lib";
    assert l.srcDirs[1] == ChildPath(base, "lib2") == base + "/" + "lib2";
    assert |l.srcDirs| == 2;
    assert base[..1] == root[..1] && input[..1] == base[..1];
    assert l.srcDirs[0][..1] == base[..1] && l.srcDirs[1][..1] == base[..1];
    assert input[..|base| + 4] == base + "/lib";
    assert input[..|base| + 5] == base + "/lib2";
    assert Covers("/w", l.srcDirs[0], input) && Covers("/w", l.srcDirs[1], input);
    assert !exists k :: OnlyCover(l.srcDirs, "/w", input, k);
  }
}
