/**
  The class dependency analyzer: given the dependency graph of a project and
  one target class, it collects every class that may be deleted with the
  target, then deletes their source files.

  The order in which a `HashMap` hands out its entries is not part of the
  model: each scan picks the next entry with `:|`, so every proof below holds
  for every iteration order.
*/
module Analyzer {
  import opened DependencyGraph
  import opened ClassFiles
  import opened Sequences

  /** One turn of the worklist: the head of the queue is polled, and the
      classes one scan admitted are offered. The queue stays free of
      repetitions, and a polled class was never polled before, so the
      `visited` guard never skips an entry. */
  lemma WorklistTurn(target: string, start: set<string>, before: set<string>, after: set<string>,
                     enqueued: seq<string>, polled: seq<string>, queue: seq<string>, admitted: seq<string>)
    requires queue != [] && enqueued == polled + queue
    requires Distinct(enqueued) && Elems(enqueued) == {target} + (before - start)
    requires start <= before && target in before && before <= after
    requires Distinct(admitted) && Elems(admitted) == after - before
    requires enqueued[0] == target
    ensures queue[0] !in Elems(polled)
    ensures enqueued + admitted == (polled + [queue[0]]) + (queue[1..] + admitted)
    ensures Distinct(enqueued + admitted)
    ensures Elems(enqueued + admitted) == {target} + (after - start)
    ensures Elems(polled + [queue[0]]) == Elems(polled) + {queue[0]}
    ensures (enqueued + admitted)[0] == target
  {
    PollHead(polled, queue);
    DistinctAppend(enqueued, admitted);
    assert ({target} + (before - start)) + (after - before) == {target} + (after - start);
    AppendAssoc(polled + [queue[0]], queue[1..], admitted);
    ElemsAppend(polled, [queue[0]]);
    assert Elems([queue[0]]) == {queue[0]};
  }

  /** A scan that offers nothing leaves the set as it was; one that offers
      something shrinks the keys still outside the set. */
  lemma ScanProgress(keys: set<string>, before: set<string>, after: set<string>, admitted: seq<string>)
    requires before <= after && after - before <= keys
    requires Distinct(admitted) && Elems(admitted) == after - before
    ensures admitted == [] ==> after == before
    ensures admitted != [] ==> |keys - after| < |keys - before|
  {
    DistinctCard(admitted);
    OutsideCard(keys, before, after);
  }

  /** When the queue runs dry, every class was polled once, so the polls are
      the target and the new members, at most one per key besides the target. */
  lemma PollsBound(target: string, keys: set<string>, start: set<string>, final: set<string>,
                   enqueued: seq<string>, polled: seq<string>, queue: seq<string>)
    requires enqueued == polled + queue && queue == [] && Distinct(enqueued)
    requires Elems(enqueued) == {target} + (final - start) && final - start <= {target} + keys
    ensures Distinct(polled) && Elems(polled) == {target} + (final - start)
    ensures |polled| <= 1 + |keys|
  {
    assert polled == enqueued;
    DistinctCard(polled);
    SubsetCard(Elems(polled), {target} + keys);
  }

  class ClassDependencyAnalyzer {
    /** Each class to the names it references; built before the analysis. */
    const dependencyGraph: Graph
    /** The classes found deletable so far. */
    var classesToDelete: set<string>

    constructor (graph: Graph)
      ensures dependencyGraph == graph && classesToDelete == {}
    {
      dependencyGraph := graph;
      classesToDelete := {};
    }

    /** The inner scan of one entry: does any class not marked for deletion
        still list `dependentClass` among its dependencies? */
    method OnlyUsedByDeletedClasses(dependentClass: string) returns (only: bool)
      ensures only == OnlyUsedByDeleted(dependencyGraph, classesToDelete, dependentClass)
    {
      only := true;
      var others := dependencyGraph.Keys;
      while others != {}
        invariant others <= dependencyGraph.Keys
        invariant forall j :: j in dependencyGraph && j !in others && j !in classesToDelete
                    ==> dependentClass !in dependencyGraph[j]
        decreases others
      {
        var other :| other in others;
        others := others - {other};
        if other !in classesToDelete && dependentClass in dependencyGraph[other] {
          only := false;
          break;
        }
      }
    }

    /** One pass of the `for` loop over the graph's entries: every key
        outside the set that no class outside the set references, at the
        moment it is scanned, is added to the set. `admitted` lists the
        classes the pass offers to the queue, in the order it offers them. */
    method ScanEntries(ghost seed: set<string>) returns (admitted: seq<string>)
      requires seed <= classesToDelete <= Closure(dependencyGraph, seed)
      modifies this`classesToDelete
      ensures old(classesToDelete) <= classesToDelete <= Closure(dependencyGraph, seed)
      ensures Elems(admitted) == classesToDelete - old(classesToDelete)
      ensures Elems(admitted) <= dependencyGraph.Keys && Distinct(admitted)
      ensures admitted == [] ==> Stable(dependencyGraph, classesToDelete)
      ensures Admitted(dependencyGraph, old(classesToDelete)) <= classesToDelete
      ensures forall k :: k in Elems(admitted) ==> OnlyUsedByDeleted(dependencyGraph, classesToDelete, k)
    {
      admitted := [];
      var entries := dependencyGraph.Keys;
      while entries != {}
        invariant entries <= dependencyGraph.Keys
        invariant old(classesToDelete) <= classesToDelete <= Closure(dependencyGraph, seed)
        invariant Elems(admitted) == classesToDelete - old(classesToDelete)
        invariant Elems(admitted) <= dependencyGraph.Keys && Distinct(admitted)
        invariant admitted == [] ==>
                    forall k :: k in dependencyGraph && k !in entries && k !in classesToDelete
                      ==> !OnlyUsedByDeleted(dependencyGraph, classesToDelete, k)
        invariant forall k :: k in Admitted(dependencyGraph, old(classesToDelete)) && k !in entries
                    ==> k in classesToDelete
        invariant forall k :: k in Elems(admitted) ==> OnlyUsedByDeleted(dependencyGraph, classesToDelete, k)
        decreases entries
      {
        var dependentClass :| dependentClass in entries;
        entries := entries - {dependentClass};
        if dependentClass in classesToDelete {
          continue;
        }
        var only := OnlyUsedByDeletedClasses(dependentClass);
        if dependentClass in Admitted(dependencyGraph, old(classesToDelete)) {
          OnlyUsedMonotone(dependencyGraph, old(classesToDelete), classesToDelete, dependentClass);
        }
        if only {
          AdmissionStaysInClosure(dependencyGraph, seed, classesToDelete, dependentClass);
          DistinctAppend(admitted, [dependentClass]);
          classesToDelete := classesToDelete + {dependentClass};
          admitted := admitted + [dependentClass];
        }
      }
    }

    /** The worklist fixpoint: seed the set with the target, then rescan all
        keys each time a class is taken from the queue, until the queue runs
        dry. `polled` records every poll, before the `visited` guard, so its
        freedom from repetitions means that guard never fires. */
    method FindClassesToDelete(targetClassName: string) returns (ghost polled: seq<string>)
      modifies this`classesToDelete
      ensures classesToDelete == Closure(dependencyGraph, old(classesToDelete) + {targetClassName})
      ensures targetClassName in classesToDelete && old(classesToDelete) <= classesToDelete
      ensures Stable(dependencyGraph, classesToDelete)
      ensures |polled| > 0 && polled[0] == targetClassName && Distinct(polled)
      ensures Elems(polled) == {targetClassName} + (classesToDelete - old(classesToDelete))
      ensures |polled| <= 1 + |dependencyGraph.Keys|
    {
      var visited: set<string> := {};
      var queue: seq<string> := [targetClassName];
      ghost var start := classesToDelete;
      classesToDelete := classesToDelete + {targetClassName};
      ghost var seed := classesToDelete;
      ghost var enqueued: seq<string> := [targetClassName];
      polled := [];

      while queue != []
        invariant seed <= classesToDelete <= Closure(dependencyGraph, seed)
        invariant enqueued == polled + queue
        invariant |enqueued| > 0 && enqueued[0] == targetClassName && Distinct(enqueued)
        invariant Elems(enqueued) == {targetClassName} + (classesToDelete - start)
        invariant visited == Elems(polled)
        invariant queue == [] ==> Stable(dependencyGraph, classesToDelete)
        decreases |dependencyGraph.Keys - classesToDelete|, |queue|
      {
        var currentClass := queue[0];
        ghost var before := classesToDelete;
        ghost var wasPolled, wasQueued := polled, queue;
        PollHead(polled, queue);
        queue := queue[1..];
        polled := polled + [currentClass];
        ElemsAppend(wasPolled, [currentClass]);
        if currentClass in visited {
          continue;
        }
        visited := visited + {currentClass};

        var admitted := ScanEntries(seed);
        WorklistTurn(targetClassName, start, before, classesToDelete, enqueued, wasPolled, wasQueued, admitted);
        ScanProgress(dependencyGraph.Keys, before, classesToDelete, admitted);
        queue := queue + admitted;
        enqueued := enqueued + admitted;
      }
      StableBelowClosureIsClosure(dependencyGraph, seed, classesToDelete);
      PollsBound(targetClassName, dependencyGraph.Keys, start, classesToDelete, enqueued, polled, queue);
    }

    /** Deletes the source file of every class marked for deletion. The file
        system is the set `existing` of relative paths; `remaining` is what
        is left of it. */
    method DeleteClasses(existing: set<string>) returns (deleted: set<string>, remaining: set<string>)
      ensures deleted == DeletionPaths(classesToDelete) * existing
      ensures remaining == existing - DeletionPaths(classesToDelete)
    {
      var pending := classesToDelete;
      deleted, remaining := {}, existing;
      while pending != {}
        invariant pending <= classesToDelete
        invariant deleted == DeletionPaths(classesToDelete - pending) * existing
        invariant remaining == existing - deleted
        decreases pending
      {
        var className :| className in pending;
        var relativePath := ClassFilePath(className);
        if relativePath in remaining {
          remaining := remaining - {relativePath};
          deleted := deleted + {relativePath};
        }
        assert DeletionPaths(classesToDelete - (pending - {className}))
            == DeletionPaths(classesToDelete - pending) + {relativePath};
        pending := pending - {className};
      }
      assert classesToDelete - pending == classesToDelete;
    }

    /** The analysis and the deletion of one target, on a graph that has
        already been built. */
    method AnalyzeAndDeleteClass(targetClassName: string, existing: set<string>)
      returns (deleted: set<string>, remaining: set<string>)
      modifies this`classesToDelete
      ensures classesToDelete == Closure(dependencyGraph, old(classesToDelete) + {targetClassName})
      ensures deleted == DeletionPaths(classesToDelete) * existing
      ensures remaining == existing - deleted
    {
      ghost var polled := FindClassesToDelete(targetClassName);
      deleted, remaining := DeleteClasses(existing);
    }
  }
}
