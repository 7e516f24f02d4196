# Codebase slicer, modelled in Dafny

The codebase slicer starts from a root Java class. It collects the source files
of every project class the root depends on, up to a given number of dependency
steps. Classes named with `-include` are added on top. The collected files are
written into one text file, sorted by path, each between a START and an END
marker line.

This project models the slicing engine of `CodebaseSlicer.java`:

- `option.dfy`: the optional result of a lookup.
- `names.dfy`: the class name to file name mapping. `Outer$Inner` lives in
  `Outer.java`. The JDK filter (`java.`/`javax.`) is here too.
- `paths.dfy`: looking a file up under the ordered source roots, where the
  first root wins, and the root-relative path shown in the markers.
- `ordering.dfy`: the path order `sorted()` uses. The sorted list of a given
  multiset of paths is unique.
- `args.dfy`: `parseArgs`.
- `traversal.dfy`: the breadth-first walk seen as the sequence of work items in
  the order they were admitted. `Trace` is its invariant. The lemmas prove that
  a finished walk processed exactly the classes within `-depth` steps of the
  root, each once, at its shortest distance.
- `output.dfy`: the text of the output, as a function of the collected entries.
- `writer.dfy`: the loops of `writeOutput`.
- `slicer.dfy`: the class `CodebaseSlicer` and the functions that specify it.
  - Its fields are `processedClasses`, `workQueue` and `finalFileSet`, plus a
    ghost log of the processed items.
  - Its methods are `addWork`, `convertQualifiedNameToPath`,
    `findDependencies`, the loops of `main` and `writeOutput`.
  - `Slice` runs `main` from the start of the analysis on.

Three things the code does are outside Dafny and are given as a configuration
value `Config`:
- the file system, as the set of existing files and each file's contents;
- the Java parser with its symbol solver, as a function from a file to the
  qualified names its type references resolve to, or nothing when parsing
  throws;
- the platform's name separator.

## Model

| member | source | states |
|---|---|---|
| Names.MainClassName | src/main/java/de/mkoehler/codebaseslicer/CodebaseSlicer.java:274 | the outer class name is a prefix of the name, holds no `$`, and is followed by `$` when shorter than the name |
| Names.Replace | src/main/java/de/mkoehler/codebaseslicer/CodebaseSlicer.java:275 | replacing a character keeps the length and changes exactly the occurrences of that character |
| Names.NestedSharesFile | src/main/java/de/mkoehler/codebaseslicer/CodebaseSlicer.java:266-275 | a nested class `Outer$Inner` maps to the same relative file as `Outer` |
| Paths.FirstExisting | src/main/java/de/mkoehler/codebaseslicer/CodebaseSlicer.java:277-283 | the result is absent exactly when the candidate exists under no root; otherwise it is an existing file, namely the candidate under the first root where it exists |
| Paths.DisplayPath | src/main/java/de/mkoehler/codebaseslicer/CodebaseSlicer.java:301-308 | the marker path is the path relative to the first root it lies under, with backslashes turned into slashes, or the path itself when it lies under no root |
| Paths.DisplayOfLocated | src/main/java/de/mkoehler/codebaseslicer/CodebaseSlicer.java:277-283 | with disjoint roots, a located file is shown as the class's relative file name, with slashes |
| Ordering.LeTotal | src/main/java/de/mkoehler/codebaseslicer/CodebaseSlicer.java:299 | any two paths are comparable |
| Ordering.LeAntisymmetric | src/main/java/de/mkoehler/codebaseslicer/CodebaseSlicer.java:299 | two paths that sort before or equal to each other are equal |
| Ordering.LeTransitive | src/main/java/de/mkoehler/codebaseslicer/CodebaseSlicer.java:299 | the path order is transitive |
| Ordering.Sort | src/main/java/de/mkoehler/codebaseslicer/CodebaseSlicer.java:299 | the result is sorted and is a permutation of the input |
| Ordering.SortedUnique | src/main/java/de/mkoehler/codebaseslicer/CodebaseSlicer.java:289-299 | two sorted lists of the same paths are equal, so the output order does not depend on the map's iteration order |
| Args.ParseArgs | src/main/java/de/mkoehler/codebaseslicer/CodebaseSlicer.java:325-333 | the loop over even indices builds the map of `-key value` pairs |
| Args.ArgMapKeys | src/main/java/de/mkoehler/codebaseslicer/CodebaseSlicer.java:325-333 | the keys are exactly the arguments at even indices that have a following argument |
| Args.ArgMapLastWins | src/main/java/de/mkoehler/codebaseslicer/CodebaseSlicer.java:327-330 | a key maps to the value after its last occurrence |
| Traversal.TraceStep | src/main/java/de/mkoehler/codebaseslicer/CodebaseSlicer.java:145-157 | processing the next item and appending its unseen dependencies, one step deeper, keeps the traversal invariant |
| Traversal.TraceSound | src/main/java/de/mkoehler/codebaseslicer/CodebaseSlicer.java:143-157 | every admitted item is reached from the root in exactly its depth |
| Traversal.TraceComplete | src/main/java/de/mkoehler/codebaseslicer/CodebaseSlicer.java:143-157 | after the loop, every class reachable within the bound was processed, no deeper than its distance |
| Traversal.TraceShortest | src/main/java/de/mkoehler/codebaseslicer/CodebaseSlicer.java:143-157 | each processed class's depth is its shortest distance from the root |
| Traversal.TraceClosure | src/main/java/de/mkoehler/codebaseslicer/CodebaseSlicer.java:143-157 | after the loop, the processed names are exactly the classes within `maxDepth` steps of the root |
| Traversal.QueueClean | src/main/java/de/mkoehler/codebaseslicer/CodebaseSlicer.java:255-261 | under the invariant the queue holds each name once, none of them processed, none deeper than the bound |
| Traversal.DepthZeroOnlyRoot | src/main/java/de/mkoehler/codebaseslicer/CodebaseSlicer.java:61-62 | with depth 0, the root is the only item ever admitted |
| Traversal.NonRootDeeper | src/main/java/de/mkoehler/codebaseslicer/CodebaseSlicer.java:345-346 | only the root is at depth 0; every other item is at depth 1 or more and is not the root |
| Output.NatToString | src/main/java/de/mkoehler/codebaseslicer/CodebaseSlicer.java:297 | `%d` of a non-negative number is a non-empty string of decimal digits with no leading zero |
| Output.NatToStringValue | src/main/java/de/mkoehler/codebaseslicer/CodebaseSlicer.java:297 | the digits `%d` writes for a non-negative number spell that number |
| Output.IntToStringValue | src/main/java/de/mkoehler/codebaseslicer/CodebaseSlicer.java:297 | `%d` of the depth in the header spells its value: a minus sign before the magnitude's digits when negative |
| Output.BlocksAppend | src/main/java/de/mkoehler/codebaseslicer/CodebaseSlicer.java:301-312 | each file's block stands on its own: the blocks of two lists concatenate |
| Output.ValueSeq | src/main/java/de/mkoehler/codebaseslicer/CodebaseSlicer.java:299 | there is one value per entry; equal paths under two names are not merged |
| Output.ValueSeqValues | src/main/java/de/mkoehler/codebaseslicer/CodebaseSlicer.java:299 | a path is among the collected values exactly when some entry maps to it |
| Output.ValueSeqRemove | src/main/java/de/mkoehler/codebaseslicer/CodebaseSlicer.java:299 | the values are the same multiset whichever entry is taken first |
| Writer.CollectValues | src/main/java/de/mkoehler/codebaseslicer/CodebaseSlicer.java:299 | the collected values are a permutation of the map's values |
| Writer.RelativePathOf | src/main/java/de/mkoehler/codebaseslicer/CodebaseSlicer.java:302-308 | the root loop with `break` yields the marker path of `DisplayPath` |
| Writer.RenderBlocks | src/main/java/de/mkoehler/codebaseslicer/CodebaseSlicer.java:301-312 | the loop appends, file by file, one START/content/END block under the display path |
| Slicer.Located | src/main/java/de/mkoehler/codebaseslicer/CodebaseSlicer.java:273-284 | a located file is one that exists |
| Slicer.Deps | src/main/java/de/mkoehler/codebaseslicer/CodebaseSlicer.java:237-241 | no followed dependency is in the JDK's packages |
| Slicer.MergeSpec | src/main/java/de/mkoehler/codebaseslicer/CodebaseSlicer.java:160-176 | the merge keeps every existing entry unchanged and adds exactly the listed names that have a file, each mapped to its located file |
| Slicer.Admitted | src/main/java/de/mkoehler/codebaseslicer/CodebaseSlicer.java:236-242 | the names appended are the referenced, non-JDK names that were neither processed nor queued, each one step deeper and within the bound; when that step is allowed, every such name is appended |
| Slicer.AdmitStep | src/main/java/de/mkoehler/codebaseslicer/CodebaseSlicer.java:237-241 | one more `addWork` call keeps the record of what was appended |
| Slicer.PollStep | src/main/java/de/mkoehler/codebaseslicer/CodebaseSlicer.java:146-147 | the polled item is never processed already nor too deep, so the skip test never fires |
| Slicer.VisitStep | src/main/java/de/mkoehler/codebaseslicer/CodebaseSlicer.java:146-156 | polling, marking processed and finding dependencies keeps the loop invariant |
| Slicer.CodebaseSlicer.AddWork | src/main/java/de/mkoehler/codebaseslicer/CodebaseSlicer.java:255-261 | the item is appended exactly when the name is unprocessed, within the bound and not queued; otherwise the queue is unchanged |
| Slicer.CodebaseSlicer.ConvertQualifiedNameToPath | src/main/java/de/mkoehler/codebaseslicer/CodebaseSlicer.java:273-284 | it throws exactly when the name is a non-empty run of `$`; otherwise it returns the outer class's file under the first root where it exists |
| Slicer.CodebaseSlicer.FindDependencies | src/main/java/de/mkoehler/codebaseslicer/CodebaseSlicer.java:193-243 | the entry is recorded whenever a file is found, even when parsing then fails; non-JDK references are admitted one step deeper; the outcome is not-found or completed exactly in the matching case |
| Slicer.CodebaseSlicer.EnqueueReferenced | src/main/java/de/mkoehler/codebaseslicer/CodebaseSlicer.java:236-242 | every referenced non-JDK name goes through `addWork` at the given depth, whatever the set's iteration order |
| Slicer.CodebaseSlicer.ProcessNext | src/main/java/de/mkoehler/codebaseslicer/CodebaseSlicer.java:145-157 | one round polls the head, appends it to the processing log and marks its name processed; `findDependencies` then appends the admitted dependencies one step deeper after the rest of the queue. The round keeps the invariant and processes a new name from the finite universe, which makes the loop terminate |
| Slicer.CodebaseSlicer.Traverse | src/main/java/de/mkoehler/codebaseslicer/CodebaseSlicer.java:143-157 | the loop ends with an empty queue. Each name was processed once, within the bound; the processed names are exactly the closure; the entries are exactly the processed names that have a file; depth 0 processes only the root, and a negative depth processes nothing |
| Slicer.CodebaseSlicer.IncludeExplicit | src/main/java/de/mkoehler/codebaseslicer/CodebaseSlicer.java:160-176 | without a throw, the entries become the merge of the listed names. A throw happens at the first listed non-empty run of `$` that is not already present, after merging the names before it |
| Slicer.CodebaseSlicer.WriteOutput | src/main/java/de/mkoehler/codebaseslicer/CodebaseSlicer.java:295-314 | the text is the header followed by the blocks of the entries' files in sorted order |
| Slicer.Slice | src/main/java/de/mkoehler/codebaseslicer/CodebaseSlicer.java:142-178 | a run yields nothing when an included name throws, and otherwise the rendering of the closure's files merged with the included ones |

## Left out

- Parsing and symbol resolution (`StaticJavaParser.parse` and `resolve`) are
  given as a function from a file to the set of resolved reference names, or
  nothing when parsing throws. The three `findAll` passes of
  `findDependencies` are not modelled separately; only the union they build
  is.
- The iteration order of `HashSet` and `HashMap` is arbitrary. It is modelled
  by choosing any remaining element. The results are proved independent of
  that choice.
- File-system I/O is not modelled: `Files.exists`, `readString`,
  `writeString` and the `IOException`s they throw. A file either exists or
  not, and its contents are a function of its path. The output is returned
  as a string instead of being written.
- Path handling is simplified:
  - `Path.resolve` is string concatenation with the separator;
  - `toAbsolutePath().startsWith(root)` is the string prefix `root + sep`;
  - `relativize` is dropping that prefix.
  Normalisation (`..`, `.`, repeated separators) and relative-versus-absolute
  roots are not modelled.
- `sorted()` on paths is lexicographic over characters in this model. The
  platform's own `Path` ordering is not modelled, e.g. case-insensitive on
  Windows.
- `%n` in the header is written as `\n`.
- Slicer.CodebaseSlicer.FindDependencies: depths are unbounded integers, so
  the 32-bit wrap-around of `item.depth + 1` at line 240 is not modelled.
  With `-depth 2147483647`, an item at depth `Integer.MAX_VALUE` would enqueue
  its dependencies at `Integer.MIN_VALUE`, and `addWork` would accept them.
  Reaching that depth needs a chain of 2^31 distinct classes, since every
  processed name is new.
- Argument handling in `main` is not modelled:
  - the usage message and early return when a required argument is missing;
  - `Integer.parseInt` of `-depth`;
  - the `-java` language level;
  - splitting and trimming the comma lists of `-source` and `-include`.
  The roots and the included names come in as sequences.
- Console output is not modelled.
- Two behaviours of the code are kept as they are:
  - A root class whose file is not found only produces a message (lines
    195-198). The traversal goes on with an empty queue, and the output holds
    just the header and any included files.
  - The entry for a class is put at line 200, before its file is parsed at
    line 201. So a file that fails to parse is still written out, although
    the message at line 155 says the class is skipped.
- Slicer.PollStep: the loop's test that skips polled items that are too deep
  or already processed is proved never to fire. The model keeps it as an
  assertion instead of a branch.
