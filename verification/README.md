# Class dependency analyzer: which classes go with a deleted class

This project models the core of a Java tool that deletes one class from a
project together with every class that is used only by deleted classes. The
tool first builds a dependency graph. The graph maps each class's
fully-qualified name to the names it extends or implements. Then
`findClassesToDelete` grows the set `classesToDelete` from the target by a
worklist fixpoint. Finally `deleteClasses` removes the source file
`a/b/C.java` of every class `a.b.C` in that set.

The model has five parts:

- `DependencyGraph` (dependency_graph.dfy) states the admission rule on
  values. A key `k` is admitted when no graph key outside the set lists `k`
  among its dependencies (`OnlyUsedByDeleted`). `Closure(g, seed)` is the set
  the worklist ends with. It is defined by whole rounds of admission, so it
  does not depend on any iteration order. The lemmas prove the following:
  - `Closure` is the least stable superset of its seed.
  - Every referencer of an admitted class is deleted too.
  - A self-referencing key is never admitted.
  - An unreferenced key is always admitted.
  - Running the analysis again changes nothing.
- `Analyzer` (analyzer.dfy) is the class `ClassDependencyAnalyzer`. Its field
  `dependencyGraph` is a constant and its field `classesToDelete` is
  mutable. `FindClassesToDelete` keeps the source's queue, its `visited` set
  and its nested scans over the graph's entries. `HashMap` iteration order
  is a nondeterministic choice (`:|`). The method is proved to end with
  exactly `Closure(dependencyGraph, old(classesToDelete) + {target})`. So
  every entry order gives the same set. A ghost out-parameter records every
  poll, before the `visited` guard: the polls never repeat, so the guard
  never skips an entry and the loop polls at most `1 + |keys|` times.
- `ClassFiles` (class_files.dfy) is the path expression of `deleteClasses`:
  every '.' becomes '/', then ".java" is appended. Its partner
  `ClassNameOfPath` gives back the class name of a path. For names without
  '/', which qualified Java names never contain, the round trip holds and
  the mapping is injective.
- `Sequences` (sequences.dfy) holds facts about the queue, kept as a
  sequence: its elements and the absence of repetitions.
- `Scenarios` (scenarios.dfy) computes the result on small graphs.

The model follows the code, which differs from the tool's design
description in four ways:

- The design admits only classes reachable from the targets. The code scans
  every graph key, so a class that nothing references is deleted even when
  the target never reaches it (`Scenarios.UnreachableOrphanIsDeleted`).
- The design exempts a class's reference to itself. In the code, a class
  outside the set that lists itself always counts as an outside user
  (`DependencyGraph.SelfReferencingKeyNeverAdmitted`).
- The design excludes the tool's own namespace from deletion. The code has
  no such filter.
- The design takes several targets. The code takes one.

One consequence of the code as written comes from reading its text only; it
is not a proved fact about the parser. The graph's keys are fully qualified
names (ClassDependencyAnalyzer.java:67-72). The dependencies are the simple
names of extended and implemented types (ClassDependencyAnalyzer.java:133-134).
In a project whose classes live in packages, a simple name never equals a
qualified key, so no key is ever listed as a dependency. By
`DependencyGraph.UnreferencedKeyAdmitted`, every graph key is then deleted
along with the target.

## Model

| member | source | states |
|---|---|---|
| `Analyzer.ClassDependencyAnalyzer.constructor` | src/main/java/com/example/tools/ClassDependencyAnalyzer.java:12-15 | a new analyzer holds the given graph and an empty deletion set |
| `Analyzer.ClassDependencyAnalyzer.OnlyUsedByDeletedClasses` | src/main/java/com/example/tools/ClassDependencyAnalyzer.java:95-102 | the flag stays true exactly when no key outside `classesToDelete` lists the class among its dependencies |
| `Analyzer.ClassDependencyAnalyzer.ScanEntries` | src/main/java/com/example/tools/ClassDependencyAnalyzer.java:91-108 | one pass over the entries only adds keys; it adds at least every key that was admissible when the pass began, and every key it adds still has no referencer outside the set when the pass ends; every added key belongs to the closure of the seed; the classes offered to the queue are exactly the added ones, without repetition; a pass that adds nothing leaves every outside key with an outside referencer |
| `Analyzer.WorklistTurn` | src/main/java/com/example/tools/ClassDependencyAnalyzer.java:85-106 | a polled class was never polled before, so the `visited` guard never fires; after the offers the queue still holds no class twice, and every queued class is the target or was newly added |
| `Analyzer.ClassDependencyAnalyzer.FindClassesToDelete` | src/main/java/com/example/tools/ClassDependencyAnalyzer.java:79-110 | for every entry order the final set is `Closure(graph, old set + {target})`; the target is in it; the set only grew; no scan would admit more; every poll, recorded before the `visited` guard, takes the target or a new member not polled before, so the guard never fires and there are at most `1 + |keys|` polls |
| `Analyzer.ClassDependencyAnalyzer.DeleteClasses` | src/main/java/com/example/tools/ClassDependencyAnalyzer.java:112-121 | the files removed are exactly the existing paths of members of `classesToDelete`; every other file stays |
| `Analyzer.ClassDependencyAnalyzer.AnalyzeAndDeleteClass` | src/main/java/com/example/tools/ClassDependencyAnalyzer.java:17-29 | the analysis leaves the closure of the target and the deletion removes exactly the existing files of that closure |
| `DependencyGraph.Closure` | src/main/java/com/example/tools/ClassDependencyAnalyzer.java:79-110 | the result contains the seed, holds nothing but the seed and graph keys, and is a fixpoint: every key outside it has a referencer that is a key outside it |
| `DependencyGraph.OnlyUsedMonotone` | src/main/java/com/example/tools/ClassDependencyAnalyzer.java:95-102 | the admission test is monotone: a key admissible for a set stays admissible for every larger set |
| `DependencyGraph.ClosureLeast` | src/main/java/com/example/tools/ClassDependencyAnalyzer.java:85-109 | the closure is contained in every fixpoint that contains the seed |
| `DependencyGraph.StableBelowClosureIsClosure` | src/main/java/com/example/tools/ClassDependencyAnalyzer.java:85-109 | a fixpoint between the seed and the closure is the closure, so the order in which keys are admitted does not change the result |
| `DependencyGraph.AdmissionStaysInClosure` | src/main/java/com/example/tools/ClassDependencyAnalyzer.java:104-106 | a key admitted while the set is below the closure lies in the closure |
| `DependencyGraph.ClosureSafety` | src/main/java/com/example/tools/ClassDependencyAnalyzer.java:95-105 | every key that references an admitted (non-seed) class is itself in the closure |
| `DependencyGraph.SelfReferencingKeyNeverAdmitted` | src/main/java/com/example/tools/ClassDependencyAnalyzer.java:96-100 | a key outside the seed that lists itself is never in the closure |
| `DependencyGraph.UnreferencedKeyAdmitted` | src/main/java/com/example/tools/ClassDependencyAnalyzer.java:91-105 | a key that no key references is always in the closure, whether or not the target reaches it |
| `DependencyGraph.ClosureIdempotent` | src/main/java/com/example/tools/ClassDependencyAnalyzer.java:79-110 | analysing again from the result returns the result unchanged |
| `ClassFiles.DotsToSlashes` | src/main/java/com/example/tools/ClassDependencyAnalyzer.java:114 | same length as the name, every '.' becomes '/', every other character is kept, no '.' is left |
| `ClassFiles.ClassFilePath` | src/main/java/com/example/tools/ClassDependencyAnalyzer.java:114 | the path is the name's length plus five, ends in ".java", and has no '.' before that suffix |
| `ClassFiles.ClassFilePathRoundTrip` | src/main/java/com/example/tools/ClassDependencyAnalyzer.java:114 | for a name without '/', reading the class name back from its path returns the name |
| `ClassFiles.ClassFilePathInjective` | src/main/java/com/example/tools/ClassDependencyAnalyzer.java:113-115 | two different qualified names never share a file |
| `ClassFiles.DeletionPathsNameMembers` | src/main/java/com/example/tools/ClassDependencyAnalyzer.java:113-114 | when no class name holds '/', every file the deletion touches reads back as the name of a class in `classesToDelete`, so nothing outside the set is deleted |
| `ClassFiles.DeletionPathsCard` | src/main/java/com/example/tools/ClassDependencyAnalyzer.java:113-114 | when no class name holds '/', the deletion touches exactly one file per class in the set |
| `Scenarios.UnreachableOrphanIsDeleted` | src/main/java/com/example/tools/ClassDependencyAnalyzer.java:91-106 | with A -> B, X -> B and target A, the result is {A, B, X}: the unreferenced X goes, and B follows it |
| `Scenarios.CycleKeepsEachOtherAlive` | src/main/java/com/example/tools/ClassDependencyAnalyzer.java:91-106 | with A -> B, B <-> C, D -> C and target A, the result is {A, D}: B and C keep each other |
| `Scenarios.SelfReferenceIsNotExempt` | src/main/java/com/example/tools/ClassDependencyAnalyzer.java:96-100 | with A -> B, B -> B and target A, only A is deleted |
| `Scenarios.ChainIsDeleted` | src/main/java/com/example/tools/ClassDependencyAnalyzer.java:91-106 | with A -> B -> C and target A, all three are deleted |
| `Scenarios.TargetOutsideGraph` | src/main/java/com/example/tools/ClassDependencyAnalyzer.java:82-83 | a target that is not a graph key is still in the set, and a cycle elsewhere is kept |

## Left out

- `scanJavaFiles`, `buildDependencyGraph`, `analyzeDependencies` and `DependencyVisitor` (ClassDependencyAnalyzer.java:31-77, 123-137) walk directories and call a Java parser. The graph is an arbitrary input map. No resolution between qualified keys and the simple names in the values is modelled.
- The `allClasses` field is filled only by the scanner and read by nothing in the core.
- `Files.exists`, `Files.delete` and the console message in `deleteClasses` are file-system I/O. The file system is a set of relative paths passed in, and deletion removes a path from it. I/O failures are not modelled.
- `Path.of(rootPath, relativePath)`: joining with the root is left out, and paths are relative to the root.
- `ClassDeleter.java` is not part of this model. It is a thread pool with a timeout that deletes whole files whose text mentions a class name, and its `main` calls an analyzer method that the analyzer does not define.
- The order of `HashMap` entries is not modelled; it is a nondeterministic choice, and the result is proved the same for every order.
- Offers to the queue: each pass's offers to the queue are appended after the pass, not one at a time. Nothing reads the queue during a pass, so the queue is the same.
