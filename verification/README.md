# javametadata in Dafny

A model of the core of javametadata, a tool that walks parsed Java sources and
writes CSV facts about them: which types each type reference resolves to, which
methods each call resolves to, which classes each file declares. It also writes
an error row for everything that does not resolve. The model covers three parts
of that core, plus the small helpers around them.

- **The type-resolution index.** `ParsedTypeSolver` turns a dotted name into
  candidate files under each source root, longest prefix first. At each prefix
  it tries the canonical file, then the units of that file's directory. Three
  caches sit in front of the file system: file to unit, directory to units,
  and name to answer. `JavaParserStuffImpl` indexes parsed units by path and
  by fully qualified type name.
- **The extraction visitors.** These are `SymbolsExtractVisitor`,
  `CsvReportVisitor`, `MethodResolverVisitor` and `DefinitionExtractVisitor`.
  They walk a syntax tree children-first. Each writes a node's fact or error
  rows after those of the nodes below it.
- **The reports.** These are `AbstractCsvReport` and `CsvReports`, with the
  `MethodCsvReport`, `DefCsvReport` and `TypesCsvReport` categories. Each
  report owns lazily opened CSV writers that write their header once, and its
  rows start with the node's line and column.

The helpers are:

- `JpUtils`: tree search by range and by position, parameter naming, parse
  and storage lookups.
- `Library`: the source and output directories of a library.
- `ChaChaVisitorContext`: entry lists sorted by numeric line and column.
- `CsvUtils`: turning values into CSV cells.

The model is functional. Every object with state is a value, and every
operation returns the new value.

**Caches.** The solver's caches are threaded through its functions as values
(`ParsedTypeSolver.Step`). Each cached function is paired with an uncached
reference function: `FileTruth`, `DirTruth`, `ResolvingTruth` and
`SolveTruth`. The invariant `Coherent` says that every cache entry holds the
reference answer. Under that invariant the contracts state two things:

- the cached answer is the reference answer;
- the caches stay coherent and only grow.

**Visitors.** Each visitor produces a `Traversal.Trace`: the writes in order,
plus the exception that ended the walk, if any. The report functions then
apply those writes.

**Oracles.** Parsing, `resolve()`, `Navigator.findType`, `FileUtils.isValidPath`
and `getParentPath` are not modelled. They appear as function-valued
parameters keyed by node id or by path (`Resolution.Oracle`,
`ParsedTypeSolver.Env`), or as fields of the node they belong to.

The files follow the program's structure, one module per source class:

| file | module |
|---|---|
| `unit_index.dfy` | `JavaParserStuffImpl` |
| `type_solver.dfy` | `ParsedTypeSolver` |
| `jp_utils.dfy` | `JpUtils` |
| `library.dfy` | `Library` |
| `chacha.dfy` | `ChaChaVisitorContext` |
| `csv_utils.dfy` | `CsvUtils` |
| `reports.dfy` | `Reports`, for `AbstractCsvReport` |
| `csv_reports.dfy` | `CsvReports` |
| `report_kinds.dfy` | `MethodCsvReport`, `DefCsvReport` and `TypesCsvReport` |
| `symbols_extract_visitor.dfy` | `SymbolsExtractVisitor` |
| `csv_report_visitor.dfy` | `CsvReportVisitor` |
| `method_resolver_visitor.dfy` | `MethodResolverVisitor` |
| `definition_extract_visitor.dfy` | `DefinitionExtractVisitor` |

The rest is shared support:

- `base.dfy`: `Option`, `Outcome` and exception values.
- `strings.dfy`: the `java.lang.String` operations the code uses.
- `syntax.dfy`: positions, ranges and syntax-tree nodes.
- `resolution.dfy`: the resolution oracles.
- `traversal.dfy`: the generic children-first walk. A node's `children` are
  in `getChildNodes()` order, which the tree searches of `JpUtils` follow. Its
  `visitOrder` holds the same nodes in the order the generated
  `VoidVisitorAdapter` visits the node's properties, which the walk follows.
- `type_fallback.dfy`: the enclosing-type fallback that the two type visitors
  share.

Where the code and the repository's own description of it differ, this model
follows the code:

- **Row order.** The visitors call `super.visit` before writing, so a node's
  rows come after those of all nodes below it (post-order), not before.
- **Fallback termination.** The fallback in `getTopLevelClass` moves to the
  parent before it recurses. It therefore always recurses on a strict
  ancestor, and it ends on any finite tree (`TypeFallback.TopLevelClass`
  decreases the ancestor list).

## Model

| member | source | states |
|---|---|---|
| ParsedTypeSolver.NewSolver | src/main/java/com/github/javaparser/symbolsolver/resolution/typesolvers/ParsedTypeSolver.java:66-71 | a solver is produced exactly when every source root is an existing directory; otherwise the IllegalStateException names the first root that is not |
| ParsedTypeSolver.SetParent | src/main/java/com/github/javaparser/symbolsolver/resolution/typesolvers/ParsedTypeSolver.java:99-108 | the parent is set exactly when it is non-null, none was set before and it is not the solver itself; each refusal has its own exception and message |
| ParsedTypeSolver.Parse | src/main/java/com/github/javaparser/symbolsolver/resolution/typesolvers/ParsedTypeSolver.java:110-134 | a cached file answer is returned with the caches untouched; a miss stores the file-system-and-parser answer (absent for a missing or non-regular file) and agrees with it while the cache is coherent |
| ParsedTypeSolver.FilesInListingOrder | src/main/java/com/github/javaparser/symbolsolver/resolution/typesolvers/ParsedTypeSolver.java:148-176 | the units of a directory listing are, in listing order, exactly those of the direct children whose name ends in ".java" in any case and that yield a unit: one unit per such child, at increasing positions of the listing |
| ParsedTypeSolver.FilesMembership | src/main/java/com/github/javaparser/symbolsolver/resolution/typesolvers/ParsedTypeSolver.java:148-176 | every unit of the listing comes from a Java child that yields it, and every Java child that yields a unit contributes it |
| ParsedTypeSolver.ParseFiles | src/main/java/com/github/javaparser/symbolsolver/resolution/typesolvers/ParsedTypeSolver.java:148-176 | reading the listing through the file cache gives the uncached units and keeps the cache coherent and growing |
| ParsedTypeSolver.ParseDirectory | src/main/java/com/github/javaparser/symbolsolver/resolution/typesolvers/ParsedTypeSolver.java:140-176 | a cached directory is answered from the cache; otherwise the answer is the uncached one, cached on success; a failure leaves every cache as it was |
| ParsedTypeSolver.CandidateShape | src/main/java/com/github/javaparser/symbolsolver/resolution/typesolvers/ParsedTypeSolver.java:204-218 | the candidate file of prefix i is the i-th segment plus ".java" inside the directory of the first i-1 segments, and the in-file type name starts with that segment |
| ParsedTypeSolver.TypeNameSplits | src/main/java/com/github/javaparser/symbolsolver/resolution/typesolvers/ParsedTypeSolver.java:204-218 | the in-file type name of prefix i splits back into exactly the segments from i-1 on |
| ParsedTypeSolver.FindIn | src/main/java/com/github/javaparser/symbolsolver/resolution/typesolvers/ParsedTypeSolver.java:252-258 | a directory scan finds the name exactly when some unit declares it, and then answers with the first such unit |
| ParsedTypeSolver.Canonical | src/main/java/com/github/javaparser/symbolsolver/resolution/typesolvers/ParsedTypeSolver.java:222-231 | the canonical-file lookup through the cache equals the uncached lookup and keeps the caches coherent |
| ParsedTypeSolver.Hit | src/main/java/com/github/javaparser/symbolsolver/resolution/typesolvers/ParsedTypeSolver.java:222-246 | one prefix through the caches gives the uncached canonical-then-scan answer; when the canonical file declares the type, that answer comes back with the directory cache untouched |
| ParsedTypeSolver.Resolving | src/main/java/com/github/javaparser/symbolsolver/resolution/typesolvers/ParsedTypeSolver.java:203-250 | trying prefixes through the caches gives the uncached longest-first answer, and the caches only grow |
| ParsedTypeSolver.Solve | src/main/java/com/github/javaparser/symbolsolver/resolution/typesolvers/ParsedTypeSolver.java:190-201 | trying roots through the caches gives the uncached first-root answer |
| ParsedTypeSolver.TryToSolveType | src/main/java/com/github/javaparser/symbolsolver/resolution/typesolvers/ParsedTypeSolver.java:179-188 | a name already answered is returned from the cache with nothing else consulted; under coherent caches the answer is the uncached resolution, it is cached when obtained, and the caches only grow |
| ParsedTypeSolver.SolveIdempotent | src/main/java/com/github/javaparser/symbolsolver/resolution/typesolvers/ParsedTypeSolver.java:179-188 | asking for a name a second time returns the same answer and changes no cache |
| ParsedTypeSolver.SequenceMatchesReference | src/main/java/com/github/javaparser/symbolsolver/resolution/typesolvers/ParsedTypeSolver.java:179-201 | for any sequence of requests starting from coherent caches, every answer equals the uncached resolution |
| ParsedTypeSolver.CanonicalBeatsScan | src/main/java/com/github/javaparser/symbolsolver/resolution/typesolvers/ParsedTypeSolver.java:222-246 | when the canonical file declares the type, the prefix answers with that file's unit and the in-file type name, both uncached and through the file cache, and no directory listing is cached or consulted |
| ParsedTypeSolver.ScanAnswers | src/main/java/com/github/javaparser/symbolsolver/resolution/typesolvers/ParsedTypeSolver.java:232-246 | otherwise the answer is the first unit of the candidate's parent directory that declares the type name |
| ParsedTypeSolver.LongestPrefixWins | src/main/java/com/github/javaparser/symbolsolver/resolution/typesolvers/ParsedTypeSolver.java:203-250 | the longest prefix that gives a hit decides the answer; shorter prefixes are not consulted |
| ParsedTypeSolver.FirstRootWins | src/main/java/com/github/javaparser/symbolsolver/resolution/typesolvers/ParsedTypeSolver.java:193-200 | the first root whose resolution gives an answer decides the result |
| ParsedTypeSolver.NoRootUnsolved | src/main/java/com/github/javaparser/symbolsolver/resolution/typesolvers/ParsedTypeSolver.java:193-200 | when no root gives an answer the result is unsolved |
| ParsedTypeSolver.SolvedComesFromAPrefix | src/main/java/com/github/javaparser/symbolsolver/resolution/typesolvers/ParsedTypeSolver.java:203-250 | a solved answer names a type, declared in the answering unit, that is the name of one of the candidate prefixes |
| JavaParserStuffImpl.AlreadyMapped | src/main/java/com/github/javaparser/symbolsolver/resolution/typesolvers/JavaParserStuffImpl.java:35-39 | the clash message names the type, the path being indexed and the path of the unit already holding the name |
| JavaParserStuffImpl.AddTypes | src/main/java/com/github/javaparser/symbolsolver/resolution/typesolvers/JavaParserStuffImpl.java:25-30 | the type loop of one unit succeeds exactly when every type has a name, none is already indexed and none repeats; then the old entries are kept and the new names map to the unit |
| JavaParserStuffImpl.AddUnit | src/main/java/com/github/javaparser/symbolsolver/resolution/typesolvers/JavaParserStuffImpl.java:20-33 | one unit without storage fails as findPath does; otherwise its types are indexed and its path is put, replacing an earlier unit at that path |
| JavaParserStuffImpl.BuildSucceeds | src/main/java/com/github/javaparser/symbolsolver/resolution/typesolvers/JavaParserStuffImpl.java:20-33 | construction succeeds exactly when every unit is stored, every type has a name and no name occurs twice, in one unit or across units |
| JavaParserStuffImpl.BuildIndexes | src/main/java/com/github/javaparser/symbolsolver/resolution/typesolvers/JavaParserStuffImpl.java:20-33 | after construction the name index maps exactly the declared names, each to its declaring unit, and the path index maps each stored path to the last unit stored there |
| JavaParserStuffImpl.FindByTypeName | src/main/java/com/github/javaparser/symbolsolver/resolution/typesolvers/JavaParserStuffImpl.java:48-51 | after construction the name lookup finds the unit declaring the name, and nothing for a name no unit declares |
| JavaParserStuffImpl.FindByPath | src/main/java/com/github/javaparser/symbolsolver/resolution/typesolvers/JavaParserStuffImpl.java:20-45 | after construction the path lookup finds the last unit stored at the path, and nothing for a path no unit has |
| JavaParserStuffImpl.RepeatedNameFails | src/main/java/com/github/javaparser/symbolsolver/resolution/typesolvers/JavaParserStuffImpl.java:29-30 | a name declared twice, in one unit or in two, makes construction fail |
| JavaParserStuffImpl.NamedFailureIsIllegalState | src/main/java/com/github/javaparser/symbolsolver/resolution/typesolvers/JavaParserStuffImpl.java:35-39 | with every type named, the only failure of construction on stored units is the IllegalStateException for a repeated name |
| JavaParserStuffImpl.UnnamedFailsExactly | src/main/java/com/github/javaparser/symbolsolver/resolution/typesolvers/JavaParserStuffImpl.java:26-27 | with no name repeated, construction on stored units fails exactly when some type has no fully qualified name |
| JavaParserStuffImpl.UnnamedFailureIsIllegalArgument | src/main/java/com/github/javaparser/symbolsolver/resolution/typesolvers/JavaParserStuffImpl.java:26-27 | that failure is the IllegalArgumentException "Missing fully qualified name!" |
| JavaParserStuffImpl.UnstoredUnitFails | src/main/java/com/github/javaparser/symbolsolver/resolution/typesolvers/JavaParserStuffImpl.java:20-24 | a unit without storage, reached after units that build, makes construction fail with findPath's IllegalArgumentException "No storage for compilation unit!", whatever follows it |
| JavaParserStuffImpl.FailureIsFinal | src/main/java/com/github/javaparser/symbolsolver/resolution/typesolvers/JavaParserStuffImpl.java:20-33 | once construction has thrown on some units, the units after them change nothing |
| JavaParserStuffImpl.BuiltUnitsHavePaths | src/main/java/com/github/javaparser/symbolsolver/resolution/typesolvers/JavaParserStuffImpl.java:20-45 | after construction every unit has a storage path, and the path lookup finds a unit there |
| JpUtils.FindNodeForRange | src/main/java/com/apixandru/java/visitors/JpUtils.java:28-46 | nothing for a phantom node, a node without a range or one whose range misses the target, and a node otherwise; the node found lies in the subtree and its range contains the target |
| JpUtils.FirstInChildren | src/main/java/com/apixandru/java/visitors/JpUtils.java:39-45 | the children give nothing exactly when no child gives a match |
| JpUtils.FirstMatchIndex | src/main/java/com/apixandru/java/visitors/JpUtils.java:39-45 | the match taken is the first child's in child order |
| JpUtils.FoundNodeIsInnermost | src/main/java/com/apixandru/java/visitors/JpUtils.java:28-46 | no child of the node found contains the target, so the deepest containing node is returned |
| JpUtils.GetQualifiedName | src/main/java/com/apixandru/java/visitors/JpUtils.java:54-67 | a primitive parameter gives its text, an array the element type plus "[]", a class type its resolved name or the resolution's exception, anything else the cast failure |
| JpUtils.GetNodeAt | src/main/java/com/apixandru/java/visitors/JpUtils.java:73-98 | nothing for a node without a range; a node whenever the cursor lies within the root; the node returned lies in the tree and contains the cursor |
| JpUtils.NodeAtInChildren | src/main/java/com/apixandru/java/visitors/JpUtils.java:85-91 | the children give nothing exactly when every child gives nothing |
| JpUtils.ChildMatchWins | src/main/java/com/apixandru/java/visitors/JpUtils.java:85-91 | a child's answer, from the first child that has one, beats the node itself |
| JpUtils.FirstNodeAt | src/main/java/com/apixandru/java/visitors/JpUtils.java:85-91 | among the children, the first that gives a node decides |
| JpUtils.Parse | src/main/java/com/apixandru/java/visitors/JpUtils.java:100-111 | a unit exactly when the parse succeeds; a missing file and a failed parse are the two errors, the latter with the parser's problems |
| JpUtils.FindPath | src/main/java/com/apixandru/java/visitors/JpUtils.java:119-123 | the storage path when there is one, and otherwise the IllegalArgumentException "No storage for compilation unit!" |
| CsvUtils.Render | src/main/java/com/apixandru/util/CsvUtils.java:21-28 | a row has one string per value, in order, with null written as "" |
| CsvUtils.RenderConcat | src/main/java/com/apixandru/util/CsvUtils.java:17-19 | rendering the concatenation of two value lists is the concatenation of the renderings, so the varargs and list forms agree |
| CsvUtils.Write | src/main/java/com/apixandru/util/CsvUtils.java:21-28 | a write appends exactly the rendered row and flushes, so every written line is flushed |
| Reports.RowCells | src/main/java/com/apixandru/java/visitors/AbstractCsvReport.java:34-39 | a row is the start line, the start column, then the fields in order |
| Reports.Emit | src/main/java/com/apixandru/java/visitors/AbstractCsvReport.java:41-55 | a regular, package or error write changes only its own writer |
| Reports.AppendHolding | src/main/java/com/apixandru/java/visitors/AbstractCsvReport.java:67-92 | writing to a lazy writer that holds its header and rows adds the one row; the first write opens the file and writes the header first |
| Reports.EmitStep | src/main/java/com/apixandru/java/visitors/AbstractCsvReport.java:41-92 | each write extends exactly the row list of its own kind |
| Reports.EmitAllExtends | src/main/java/com/apixandru/java/visitors/AbstractCsvReport.java:41-92 | any sequence of writes extends each writer by exactly the rows of its kind, in order |
| Reports.EmitAllFresh | src/main/java/com/apixandru/java/visitors/AbstractCsvReport.java:28-92 | after any writes, each of base.what.csv, base.what.packages.csv and base.what.errors.csv is unopened if it got no row and otherwise holds its header once, then its rows in order |
| Reports.CloseReport | src/main/java/com/apixandru/java/visitors/AbstractCsvReport.java:94-103 | close closes the writers that were opened, keeps their lines, and leaves unopened ones unopened |
| CsvReports.Categories | src/main/java/com/apixandru/java/visitors/CsvReports.java:22-24 | the three suffixes differ, with headers of 3, 4 and 4 columns |
| CsvReports.NewMultiReport | src/main/java/com/apixandru/java/visitors/CsvReports.java:30-32 | a new report keeps its base file and has no writer |
| CsvReports.Put | src/main/java/com/apixandru/java/visitors/CsvReports.java:58-68 | a write creates the writer for its suffix only if missing, naming it base.suffix with its header first; other writers are untouched |
| CsvReports.RowsForNonEmpty | src/main/java/com/apixandru/java/visitors/CsvReports.java:58-68 | a suffix gets a writer exactly when some row went to it |
| CsvReports.EmitBuilt | src/main/java/com/apixandru/java/visitors/CsvReports.java:34-68 | each write keeps every writer equal to header plus the rows of its suffix so far |
| CsvReports.EmitAllBuilt | src/main/java/com/apixandru/java/visitors/CsvReports.java:34-68 | likewise for any sequence of writes |
| CsvReports.EmitAllFresh | src/main/java/com/apixandru/java/visitors/CsvReports.java:34-80 | after any writes the writers are exactly those of the suffixes written to, each file base.suffix holding its header once and then its rows |
| CsvReports.CloseAll | src/main/java/com/apixandru/java/visitors/CsvReports.java:82-91 | close closes every opened writer and keeps its lines |
| CsvReports.FakeOutputKept | src/main/java/com/apixandru/java/visitors/CsvReports.java:93-95 | the base file given to the constructor is returned after any writes and close |
| MethodCsvReport.Files | src/main/java/com/apixandru/java/visitors/MethodCsvReport.java:18-20 | the "lines" category gives base.lines.csv, base.lines.packages.csv and base.lines.errors.csv |
| MethodCsvReport.ScopeEvent | src/main/java/com/apixandru/java/visitors/MethodCsvReport.java:22-24 | a scope row is line, column, owner, then four empty cells, as wide as the header |
| MethodCsvReport.MethodEvent | src/main/java/com/apixandru/java/visitors/MethodCsvReport.java:39-49 | a method row is call line and column, owner, name, parameters joined with ",", name line and column, as wide as the header |
| MethodCsvReport.ParamNames | src/main/java/com/apixandru/java/visitors/MethodCsvReport.java:29-32 | one name per parameter, in declaration order, each from getQualifiedName |
| MethodCsvReport.Collect | src/main/java/com/apixandru/java/visitors/MethodCsvReport.java:29-32 | the names are collected exactly when none fails, in order; otherwise the first failure propagates |
| MethodCsvReport.AddDeclaration | src/main/java/com/apixandru/java/visitors/MethodCsvReport.java:26-37 | a row exactly when every parameter name resolves and the owner has a name; a parameter failure propagates, and a missing owner is Optional.get's NoSuchElementException |
| MethodCsvReport.ParamsRow | src/main/java/com/apixandru/java/visitors/MethodCsvReport.java:26-49 | when every parameter is primitive, array or a resolving class type, the row exists and its argument cell is the parameters' texts, array element types with "[]" and resolved class names, joined with "," |
| MethodCsvReport.FirstBadParamFails | src/main/java/com/apixandru/java/visitors/MethodCsvReport.java:26-34 | the first parameter whose name fails decides what add throws: a class type's resolution failure, or the cast failure of any other kind, before the owner is looked at |
| DefCsvReport.Add | src/main/java/com/apixandru/java/visitors/DefCsvReport.java:14-20 | a def row with the name exactly when the name is present, and otherwise an error row with the simple name and the "No value present" message |
| DefCsvReport.AddWritesOneRow | src/main/java/com/apixandru/java/visitors/DefCsvReport.java:10-25 | one add writes exactly one row, to base.def.csv or to the errors file, after that file's header; the other files stay unopened |
| TypesCsvReport.Files | src/main/java/com/apixandru/java/visitors/TypesCsvReport.java:8-15 | the "types" category gives base.types.csv, base.types.packages.csv and base.types.errors.csv, with header line, col, type |
| Traversal.WalkIsPostOrder | src/main/java/com/apixandru/java/visitors/SymbolsExtractVisitor.java:47-82 | without an unparsable statement, the walk performs each node's own work after all of its children's, children in order |
| Traversal.UnparsableAborts | src/main/java/com/apixandru/java/visitors/SymbolsExtractVisitor.java:84-87 | a tree holding an unparsable statement ends its walk with an exception |
| TypeFallback.TopLevelClass | src/main/java/com/apixandru/java/visitors/SymbolsExtractVisitor.java:18-35 | the fallback climbs the chain of enclosing ClassOrInterfaceType parents and returns the nearest that resolves, or nothing when none on the chain does |
| TypeFallback.TypeParameterOwn | src/main/java/com/apixandru/java/visitors/SymbolsExtractVisitor.java:47-51 | a type parameter writes one regular row holding its text |
| TypeFallback.CoitOwn | src/main/java/com/apixandru/java/visitors/SymbolsExtractVisitor.java:53-63 | a type writes one row: regular with its name when resolved, a packages row naming the nearest resolving enclosing type when unsolved and one exists, a "Bad symbol" error otherwise, an "Unresolvable symbol" error when unsupported; any other exception ends the walk with no row |
| TypeFallback.DeclaratorFailure | src/main/java/com/apixandru/java/visitors/SymbolsExtractVisitor.java:75-79 | an unsolved declarator writes an "Unresolved symbol" error, an unsupported one an "Unresolvable symbol" error, each with the exception's message; another exception ends the walk |
| SymbolsExtractVisitor.Own | src/main/java/com/apixandru/java/visitors/SymbolsExtractVisitor.java:47-87 | the visitor's own work per node kind: type parameters and types as above, declarators only on failure, nothing for other nodes |
| SymbolsExtractVisitor.ExtractCompletes | src/main/java/com/apixandru/java/visitors/SymbolsExtractVisitor.java:47-87 | when no unparsable statement occurs and no resolution throws an exception other than the handled ones, extraction completes with the nodes' own rows in post-order, at most one per node |
| CsvReportVisitor.HandleResolvedType | src/main/java/com/apixandru/java/visitors/CsvReportVisitor.java:89-105 | nested arrays are unwrapped to the element; a primitive writes nothing, a reference type one regular row with its name, a type variable an error row, and any other kind throws IllegalStateException |
| CsvReportVisitor.NestedArrayRow | src/main/java/com/apixandru/java/visitors/CsvReportVisitor.java:96-98 | an array of any depth over a reference type writes the reference type's row |
| CsvReportVisitor.Own | src/main/java/com/apixandru/java/visitors/CsvReportVisitor.java:54-110 | the visitor's own work per node kind, a primitive declarator writing nothing and a resolved one going through the resolved-type handling |
| CsvReportVisitor.ExtractIsPostOrder | src/main/java/com/apixandru/java/visitors/CsvReportVisitor.java:54-87 | the rows of a tree are the nodes' own rows in post-order |
| CsvReportVisitor.UnparsableFails | src/main/java/com/apixandru/java/visitors/CsvReportVisitor.java:107-110 | an unparsable statement anywhere makes the extraction throw |
| MethodResolverVisitor.GetMessage | src/main/java/com/apixandru/java/visitors/MethodResolverVisitor.java:103-109 | the exception's message, or its class name followed by " had no message" when it has none |
| MethodResolverVisitor.HandleSource | src/main/java/com/apixandru/java/visitors/MethodResolverVisitor.java:82-91 | a source method needs a class, interface or enum parent, failing otherwise; its row is placed at the call's name |
| MethodResolverVisitor.HandleReflection | src/main/java/com/apixandru/java/visitors/MethodResolverVisitor.java:93-101 | a reflection method gives a row exactly when its parameter names and declaring type are obtained |
| MethodResolverVisitor.ResolveCallAsWritten | src/main/java/com/apixandru/java/visitors/MethodResolverVisitor.java:72-80 | as written, a reflection method that produced its row also yields the failed cast; every other case agrees with the corrected handling |
| MethodResolverVisitor.ResolveCall | src/main/java/com/apixandru/java/visitors/MethodResolverVisitor.java:72-80 | the corrected dispatch: a thrown resolution propagates, source and reflection methods go to their handlers, any other kind fails the cast |
| MethodResolverVisitor.CatchCall | src/main/java/com/apixandru/java/visitors/MethodResolverVisitor.java:31-36 | whatever the call handling threw becomes one error row "Cannot resolve" plus the call, after whatever it had written |
| MethodResolverVisitor.CallEvent | src/main/java/com/apixandru/java/visitors/MethodResolverVisitor.java:31-36 | corrected: each call yields exactly one row, the method row or the error row of what was thrown |
| MethodResolverVisitor.ReflectionCallCounterexample | src/main/java/com/apixandru/java/visitors/MethodResolverVisitor.java:72-80 | a reflection call such as list.size() gets both a lines row and an errors row as written |
| MethodResolverVisitor.CallRows | src/main/java/com/apixandru/java/visitors/MethodResolverVisitor.java:31-80 | as written: a call's rows are the corrected row, followed by the failed cast's error row exactly when the call goes to a reflection method whose names all compute |
| MethodResolverVisitor.BadParamErrorRow | src/main/java/com/apixandru/java/visitors/MethodResolverVisitor.java:31-91 | a call to a source method whose parameter names fail gets the single "Cannot resolve" error row carrying the first failing parameter's message |
| MethodResolverVisitor.ReceiverType | src/main/java/com/apixandru/java/visitors/MethodResolverVisitor.java:49-58 | a this receiver resolves through its class, a class literal through its type, anything else through its calculated type |
| MethodResolverVisitor.Declared | src/main/java/com/apixandru/java/visitors/MethodResolverVisitor.java:60-70 | a type without a declaration fails with IllegalArgumentException "Missing type declaration for" plus the receiver; other failures propagate |
| MethodResolverVisitor.ScopeRow | src/main/java/com/apixandru/java/visitors/MethodResolverVisitor.java:38-46 | a receiver yields a scope row when its type resolves and an error row for the receiver otherwise, at the receiver's start |
| MethodResolverVisitor.Own | src/main/java/com/apixandru/java/visitors/MethodResolverVisitor.java:26-47 | as written: a call writes its call rows, one or two as above, then a receiver row when it has a receiver, and never throws; other nodes write nothing |
| MethodResolverVisitor.ResolveIsolated | src/main/java/com/apixandru/java/visitors/MethodResolverVisitor.java:26-47 | no failure in any call ends the walk: the rows are every call's own rows in post-order, nested calls first |
| MethodResolverVisitor.OwnCorrected | src/main/java/com/apixandru/java/visitors/MethodResolverVisitor.java:26-47 | corrected: a call writes exactly one call row, then a receiver row when it has a receiver; other nodes write nothing |
| MethodResolverVisitor.AsWrittenAgreesWithoutReflection | src/main/java/com/apixandru/java/visitors/MethodResolverVisitor.java:26-80 | the corrected walk never fails; the walk as written writes the same rows when no call falls through after a reflection method, and strictly more rows otherwise |
| DefinitionExtractVisitor.Own | src/main/java/com/apixandru/java/visitors/DefinitionExtractVisitor.java:10-14 | a class or interface declaration triggers exactly one add; other nodes nothing |
| DefinitionExtractVisitor.EventsAreAdds | src/main/java/com/apixandru/java/visitors/DefinitionExtractVisitor.java:10-14 | the rows of a visit sequence are one add per class or interface declaration, in order |
| DefinitionExtractVisitor.ExtractRows | src/main/java/com/apixandru/java/visitors/DefinitionExtractVisitor.java:10-14 | a tree gives one add per declaration, nested declarations before their enclosing one, and never fails |
| ChaChaVisitorContext.KeysOfEntry | src/main/java/com/apixandru/java/visitors/ChaChaVisitorContext.java:25-40 | an entry "line:column text" gives back its line and column as the two keys, whatever the text |
| ChaChaVisitorContext.ComparatorAgrees | src/main/java/com/apixandru/java/visitors/ChaChaVisitorContext.java:14-16 | the comparator orders entry strings exactly by numeric line, then numeric column |
| ChaChaVisitorContext.AddLine | src/main/java/com/apixandru/java/visitors/ChaChaVisitorContext.java:21-29 | an add to the lines appends the entry at the node's start to the lines only |
| ChaChaVisitorContext.AddIssue | src/main/java/com/apixandru/java/visitors/ChaChaVisitorContext.java:25-33 | an add to the issues appends to the issues only |
| ChaChaVisitorContext.InsertSorted | src/main/java/com/apixandru/java/visitors/ChaChaVisitorContext.java:43 | one insertion step keeps the list sorted and adds exactly the entry |
| ChaChaVisitorContext.SortEntriesSorts | src/main/java/com/apixandru/java/visitors/ChaChaVisitorContext.java:43 | the sorted list is ordered by line and column and is a permutation of the entries |
| ChaChaVisitorContext.SortStable | src/main/java/com/apixandru/java/visitors/ChaChaVisitorContext.java:43 | entries with the same line and column keep their insertion order |
| ChaChaVisitorContext.SortSorted | src/main/java/com/apixandru/java/visitors/ChaChaVisitorContext.java:42-50 | sorting a sorted list leaves it as it is |
| ChaChaVisitorContext.GetLines | src/main/java/com/apixandru/java/visitors/ChaChaVisitorContext.java:42-45 | the lines are returned sorted, as a permutation, and the issues are untouched |
| ChaChaVisitorContext.GetIssues | src/main/java/com/apixandru/java/visitors/ChaChaVisitorContext.java:47-50 | the issues are returned sorted, as a permutation, and the lines are untouched |
| ChaChaVisitorContext.GettersIdempotent | src/main/java/com/apixandru/java/visitors/ChaChaVisitorContext.java:42-50 | calling a getter again returns the same list and context |
| Library.BasePath | src/main/java/com/apixandru/java/main/Library.java:43-45 | the base path is root, group, artifact and version separated by "/" |
| Library.NewLibrary | src/main/java/com/apixandru/java/main/Library.java:18-32 | without modules the only source directory is the base; otherwise one directory per module, in order, each the base, "/" and the module |
| Library.BaseIncludedOnlyForEmptyModule | src/main/java/com/apixandru/java/main/Library.java:18-32 | with modules, the base itself is a source directory only when a module is empty |
| Library.GetOutputDir | src/main/java/com/apixandru/java/main/Library.java:38-49 | the output directory is root/group/artifact/version made absolute: exactly that path under an absolute root, the working directory, "/" and that path under a relative root (a single "/" when the working directory is "/"), and /group/artifact/version under an empty root |
| Library.OutputDirOfOwnRoot | src/main/java/com/apixandru/java/main/Library.java:18-49 | for a library without modules, the output directory under its own root is the absolute path of its source directory |
| Library.CoveringOne | src/main/java/com/apixandru/java/main/Library.java:51-61 | exactly one source directory covers the input when the list of covering directories has one element, and that element is the directory's absolute path |
| Library.GetOutputFileAsWritten | src/main/java/com/apixandru/java/main/Library.java:51-61 | as written: a result exactly when one source directory is a raw prefix of the input, made by replacing every occurrence of that directory; otherwise IllegalStateException "Unresolvable file" |
| Library.GetOutputFile | src/main/java/com/apixandru/java/main/Library.java:51-61 | corrected: the same success and failure cases, the result being the target directory followed by the input's path below the source directory |
| Library.OutputFileKeepsRelativePath | src/main/java/com/apixandru/java/main/Library.java:51-61 | a file at a relative path below its only source directory goes to the same relative path below the target |
| Library.RepeatedDirectoryCounterexample | src/main/java/com/apixandru/java/main/Library.java:54 | as written, an input whose relative part repeats the source directory has both occurrences replaced; the corrected form keeps the inner one |
| Library.RepeatedDirectoryExample | src/main/java/com/apixandru/java/main/Library.java:54 | the concrete input /r/g/a/1/r/g/a/1/X.java |
| Library.SiblingPrefixIsAmbiguous | src/main/java/com/apixandru/java/main/Library.java:53 | with modules lib and lib2, a file under lib2 is covered by both by the raw string prefix test, and the lookup fails |

## Left out

- Console output, logging and timing are not modelled. The `println` calls in the visitors and in `ChaChaVisitorContext.add` have no effect on any result.
- Concurrency is not modelled: the caches are plain maps with no write races.
- Guava's soft-value eviction and cache size limits are not modelled. Eviction only forces recomputation, and `ParsedTypeSolver.SequenceMatchesReference` shows that recomputation gives the same answers.
- opencsv quoting and escaping, `CsvUtils.newCsvWriter`, `mkdirs` and file creation are not modelled. Each writer is a file name plus the list of rows written to it.
- JavaParser and the symbol solver are oracles: parsing, `resolve()`, `calculateResolvedType`, `Navigator.findType`, `JavaParserFacade.getTypeDeclaration` and the reflection declarations. So are `FileUtils.isValidPath` and `getParentPath`, which are fields of `ParsedTypeSolver.Env`.
- The interface `JavaParserStuff` is not modelled separately. Its implementation `JavaParserStuffImpl` is modelled.
- `MainDataCollector`, `MainDataCollectorMultiThreadded`, `CompilationUnitCallable`, `DelegatingSymbolResolver` and `Libraries` are not part of this model. They are file walking, thread pools, a forwarder and fixed configuration.
- Path normalisation is not modelled. This covers `normalize()`, `Paths.get`, `java.io.File` collapsing repeated or trailing separators, and `..` segments. Every path is taken in normal form.
- Source roots, storage paths and the report base file are taken as absolute paths.
- `ParsedTypeSolver.JavaName` lowercases ASCII letters only. The source's `toLowerCase()` covers all of Unicode, but the ".java" test is unaffected.
- The recursive branch of `parseDirectory` is not modelled. It is reached only through `parseDirectoryRecursively`, which nothing calls from outside a recursive parse, so it is dead code.
- The directory stream order is taken to be the order of `Directory.names`. The JDK does not fix that order.
- The `IOException` paths inside `parse` are not modelled. They cannot arise once the file has been found to be a regular file.
- The JVM's wording of a `ClassCastException` message is modelled only up to the two class names it contains (`MethodResolverVisitor.CastFailure`).
- An out-of-range receiver index of a call is treated as having no receiver. The parser never builds such a tree.
- `Syntax.StartOf`'s position for a node without a range is a placeholder. The source would throw from `Optional.get`, but every node the parser builds has a range.
- The singleton `DefinitionExtractVisitor.INSTANCE` is not modelled. The visitor has no state, so sharing it is not observable.
- `ParsedTypeSolver.SetParent` identifies solvers by a number. The source compares object references.
- ParsedTypeSolver.TryToSolveType: equality with the uncached resolution is stated under the `Coherent` invariant. That invariant holds for the empty caches a new solver starts with (`ParsedTypeSolver.EmptyCachesCoherent`) and is kept by every call.
- JpUtils.GetQualifiedName: a class-type parameter's resolved name is an oracle field (`ParamType.resolved`), and the model states only that it is passed on unchanged. `MethodCsvReport.ParamsRow` and `MethodCsvReport.FirstBadParamFails` relate it to the rows it produces.
- JpUtils.GetPackageName: the package declaration is a field of the parsed unit that the parser supplies, and no other operation of the core reads it, so the model states only that the field is returned.
- JpUtils.Parse: the parser is an oracle, so the model states only how its outcome becomes the result; no property connects it to a later operation.
- The adapter's visiting order of each node kind is a field of the node (`visitOrder`), not derived from the generated `VoidVisitorAdapter`, which is not part of this model.

## Findings

| source | as written | input that shows it | evidently intended | confidence | as-written member | corrected member |
|---|---|---|---|---|---|---|
| src/main/java/com/apixandru/java/visitors/MethodResolverVisitor.java:72-80 | after `handle(ReflectionMethodDeclaration)` the code does not return, so it also casts the declaration to `JavaParserMethodDeclaration`; the cast throws, and the call gets an errors row "Cannot resolve ..." besides its lines row | a call `list.size()` at 3:5, name at 3:10, resolving to a reflection method of `java.util.List` with no parameters | one lines row for a reflection-backed call and no error row | not executed | MethodResolverVisitor.ResolveCallAsWritten, MethodResolverVisitor.CallRows, MethodResolverVisitor.Own, MethodResolverVisitor.ReflectionCallCounterexample, MethodResolverVisitor.AsWrittenAgreesWithoutReflection | MethodResolverVisitor.ResolveCall, MethodResolverVisitor.CallEvent, MethodResolverVisitor.OwnCorrected |
| src/main/java/com/apixandru/java/main/Library.java:54 | `String.replace` replaces every occurrence of the source directory's path in the input path, not just the leading one | library root /r, group g, artifact a, version 1, no modules; input /r/g/a/1/r/g/a/1/X.java, target /out; the result is /out/out/X.java | /out/r/g/a/1/X.java, the input's path below the source directory placed under the target | not executed | Library.GetOutputFileAsWritten, Library.RepeatedDirectoryCounterexample | Library.GetOutputFile, Library.OutputFileKeepsRelativePath |
