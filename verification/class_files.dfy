/**
  Where a class lives on disk: the analyzer deletes, for each class name
  `a.b.C`, the file `a/b/C.java` under the project root.
*/
module ClassFiles {

  datatype Option<T> = None | Some(value: T)

  const JavaSuffix: string := ".java"

  /** `name` with every '.' replaced by '/' (Java's `String.replace(char, char)`). */
  function DotsToSlashes(name: string): (p: string)
    ensures |p| == |name|
    ensures forall i :: 0 <= i < |name| ==> p[i] == (if name[i] == '.' then '/' else name[i])
    ensures '.' !in p
  {
    if name == [] then []
    else [if name[0] == '.' then '/' else name[0]] + DotsToSlashes(name[1..])
  }

  /** `path` with every '/' replaced by '.': the partner of `DotsToSlashes`. */
  function SlashesToDots(path: string): (n: string)
    ensures |n| == |path|
    ensures forall i :: 0 <= i < |path| ==> n[i] == (if path[i] == '/' then '.' else path[i])
  {
    if path == [] then []
    else [if path[0] == '/' then '.' else path[0]] + SlashesToDots(path[1..])
  }

  /** The relative path of the source file of a class. */
  function ClassFilePath(className: string): (p: string)
    ensures |p| == |className| + |JavaSuffix|
    ensures p[|className|..] == JavaSuffix
    ensures '.' !in p[..|className|]
  {
    DotsToSlashes(className) + JavaSuffix
  }

  /** The class a relative source path holds, if it is a Java source path. */
  function ClassNameOfPath(path: string): Option<string>
  {
    if |path| >= |JavaSuffix| && path[|path| - |JavaSuffix|..] == JavaSuffix then
      Some(SlashesToDots(path[..|path| - |JavaSuffix|]))
    else
      None
  }

  /** A qualified class name (which never holds '/') is recovered from its path. */
  lemma ClassFilePathRoundTrip(className: string)
    requires '/' !in className
    ensures ClassNameOfPath(ClassFilePath(className)) == Some(className)
  {
    var p := ClassFilePath(className);
    assert |p| - |JavaSuffix| == |className|;
    assert p[|p| - |JavaSuffix|..] == JavaSuffix;
    assert p[..|p| - |JavaSuffix|] == DotsToSlashes(className);
    var back := SlashesToDots(DotsToSlashes(className));
    assert forall i :: 0 <= i < |className| ==> back[i] == className[i];
    assert back == className;
  }

  /** Two different qualified class names never map to the same file. */
  lemma ClassFilePathInjective(c1: string, c2: string)
    requires '/' !in c1 && '/' !in c2
    requires ClassFilePath(c1) == ClassFilePath(c2)
    ensures c1 == c2
  {
    ClassFilePathRoundTrip(c1);
    ClassFilePathRoundTrip(c2);
  }

  /** The files deleting a set of classes touches. Its `ensures` only
      unfold the comprehension for the verifier. */
  function DeletionPaths(classes: set<string>): (paths: set<string>)
    ensures forall c :: c in classes ==> ClassFilePath(c) in paths
    ensures forall p :: p in paths ==> exists c :: c in classes && p == ClassFilePath(c)
  {
    set c | c in classes :: ClassFilePath(c)
  }

  /** Every file deleting a set of qualified names touches names a class of
      that set: nothing outside the set is deleted. */
  lemma DeletionPathsNameMembers(classes: set<string>)
    requires forall c :: c in classes ==> '/' !in c
    ensures forall p :: p in DeletionPaths(classes) ==>
              ClassNameOfPath(p).Some? && ClassNameOfPath(p).value in classes
  {
    forall p | p in DeletionPaths(classes)
      ensures ClassNameOfPath(p).Some? && ClassNameOfPath(p).value in classes
    {
      var c :| c in classes && p == ClassFilePath(c);
      ClassFilePathRoundTrip(c);
    }
  }

  lemma DeletionPathsSplit(rest: set<string>, c: string)
    ensures DeletionPaths(rest + {c}) == DeletionPaths(rest) + {ClassFilePath(c)}
  {
  }

  lemma PathNotAmong(rest: set<string>, c: string)
    requires '/' !in c && c !in rest
    requires forall d :: d in rest ==> '/' !in d
    ensures ClassFilePath(c) !in DeletionPaths(rest)
  {
    ClassFilePathRoundTrip(c);
    forall d | d in rest
      ensures ClassFilePath(d) != ClassFilePath(c)
    {
      ClassFilePathRoundTrip(d);
    }
  }

  /** Deleting a set of qualified names touches one file per class. */
  lemma {:induction false} DeletionPathsCard(classes: set<string>)
    requires forall c :: c in classes ==> '/' !in c
    ensures |DeletionPaths(classes)| == |classes|
    decreases |classes|
  {
    if classes != {} {
      var c :| c in classes;
      var rest := classes - {c};
      DeletionPathsCard(rest);
      assert classes == rest + {c};
      DeletionPathsSplit(rest, c);
      PathNotAmong(rest, c);
    }
  }
}
