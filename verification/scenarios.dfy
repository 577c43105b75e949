/**
  Small dependency graphs and the deletion set the analyzer computes for
  them with target "A". They show what the admission rule does with classes
  that the target never reaches, with cycles and with self-references.
*/
// Each graph is a parameter pinned by `requires g == map[...]` rather than a
// literal in the `ensures`: on a literal map Dafny unfolds `Closure` eagerly
// and the proof runs out of resource.
module Scenarios {
  import opened DependencyGraph

  /** A -> B and X -> B, where nothing references X: X is swept up although
      A never reaches it, and B follows once both its users are deleted. */
  lemma UnreachableOrphanIsDeleted(g: Graph)
    requires g == map["A" := {"B"}, "X" := {"B"}, "B" := {}]
    ensures Closure(g, {"A"}) == {"A", "B", "X"}
  {
    var r := Closure(g, {"A"});
    UnreferencedKeyAdmitted(g, {"A"}, "X");
    assert OnlyUsedByDeleted(g, r, "B");
    assert g.Keys == {"A", "B", "X"};
  }

  /** A -> B, B -> C, C -> B, and D -> C with nothing referencing D: D is
      deleted as an orphan, while B and C keep each other alive. */
  lemma CycleKeepsEachOtherAlive(g: Graph)
    requires g == map["A" := {"B"}, "B" := {"C"}, "C" := {"B"}, "D" := {"C"}]
    ensures Closure(g, {"A"}) == {"A", "D"}
  {
    var t := {"A", "D"};
    assert !OnlyUsedByDeleted(g, t, "B") by { assert "C" in g && "C" !in t && "B" in g["C"]; }
    assert !OnlyUsedByDeleted(g, t, "C") by { assert "B" in g && "B" !in t && "C" in g["B"]; }
    assert g.Keys == {"A", "B", "C", "D"};
    assert Stable(g, t);
    ClosureLeast(g, {"A"}, t);
    UnreferencedKeyAdmitted(g, {"A"}, "D");
  }

  /** A -> B and B -> B: B's own entry always counts as an outside user, so
      only the target is deleted. */
  lemma SelfReferenceIsNotExempt(g: Graph)
    requires g == map["A" := {"B"}, "B" := {"B"}]
    ensures Closure(g, {"A"}) == {"A"}
  {
    SelfReferencingKeyNeverAdmitted(g, {"A"}, "B");
    assert g.Keys == {"A", "B"};
  }

  /** A -> B -> C with nothing else: the whole chain is deleted. */
  lemma ChainIsDeleted(g: Graph)
    requires g == map["A" := {"B"}, "B" := {"C"}, "C" := {}]
    ensures Closure(g, {"A"}) == {"A", "B", "C"}
  {
    var r := Closure(g, {"A"});
    assert OnlyUsedByDeleted(g, r, "B");
    assert OnlyUsedByDeleted(g, r, "C");
    assert g.Keys == {"A", "B", "C"};
  }

  /** A target that is not a graph key is still marked for deletion, and
      its presence changes nothing else. */
  lemma TargetOutsideGraph(g: Graph)
    requires g == map["B" := {"C"}, "C" := {"B"}]
    ensures Closure(g, {"Z"}) == {"Z"}
  {
    var t := {"Z"};
    assert !OnlyUsedByDeleted(g, t, "B") by { assert "C" in g && "B" in g["C"]; }
    assert !OnlyUsedByDeleted(g, t, "C") by { assert "B" in g && "C" in g["B"]; }
    assert g.Keys == {"B", "C"};
    assert Stable(g, t);
    ClosureLeast(g, {"Z"}, t);
  }
}
