/**
  The deletion rule of the class dependency analyzer, stated on values.

  A dependency graph maps a class name (a graph key) to the names it
  references. A set `s` of classes marked for deletion admits a key `k` when
  no key outside `s` lists `k` among its dependencies. The analyzer grows
  its set by this rule until one full scan of the keys admits nothing;
  `Closure` is the set it ends with, defined independently of the order in
  which the keys are scanned.
*/
module DependencyGraph {

  /** Class name to the names it references (extends / implements). */
  type Graph = map<string, set<string>>

  /** No key outside `s` lists `k` as a dependency. `k` itself counts as a
      referencer when it is outside `s` and lists itself. */
  predicate OnlyUsedByDeleted(g: Graph, s: set<string>, k: string)
  {
    forall j :: j in g && j !in s ==> k !in g[j]
  }

  /** The keys outside `s` that a scan over an unchanging `s` admits. Its
      `ensures` only unfold the comprehension for the verifier. */
  function Admitted(g: Graph, s: set<string>): (a: set<string>)
    ensures a <= g.Keys - s
    ensures forall k {:trigger k in a} :: k in g && k !in s ==> (k in a <==> OnlyUsedByDeleted(g, s, k))
  {
    set k | k in g && k !in s && OnlyUsedByDeleted(g, s, k)
  }

  /** A scan over `s` admits nothing: every key outside `s` has a referencer
      that is itself a key outside `s`. */
  predicate Stable(g: Graph, s: set<string>)
  {
    forall k {:trigger OnlyUsedByDeleted(g, s, k)} :: k in g && k !in s ==> !OnlyUsedByDeleted(g, s, k)
  }

  lemma StrictSubsetCard(a: set<string>, b: set<string>)
    requires a < b
    ensures |a| < |b|
  {
    var d := b - a;
    assert b == a + d;
    assert a * d == {};
    assert d != {};
  }

  /** Growing `s` to `t` by keys of `keys` shrinks the keys outside by as
      many. */
  lemma OutsideCard(keys: set<string>, s: set<string>, t: set<string>)
    requires s <= t && t - s <= keys
    ensures |keys - t| + |t - s| == |keys - s|
  {
    assert keys - s == (keys - t) + (t - s);
    assert (keys - t) !! (t - s);
  }

  /** Admitting at least one key brings the analyzer closer to the end. */
  lemma AdmittingShrinksOutside(g: Graph, s: set<string>)
    requires Admitted(g, s) != {}
    ensures |g.Keys - (s + Admitted(g, s))| < |g.Keys - s|
  {
    var k :| k in Admitted(g, s);
    assert k in g.Keys - s && k !in g.Keys - (s + Admitted(g, s));
    StrictSubsetCard(g.Keys - (s + Admitted(g, s)), g.Keys - s);
  }

  /** The deletion set the analyzer converges to when seeded with `s`:
      admit every admissible key, repeat until a round admits nothing. */
  function Closure(g: Graph, s: set<string>): (r: set<string>)
    ensures s <= r <= s + g.Keys
    ensures Stable(g, r)
    decreases |g.Keys - s|
  {
    var a := Admitted(g, s);
    if a == {} then
      s
    else
      AdmittingShrinksOutside(g, s);
      Closure(g, s + a)
  }

  /** The admission rule is monotone: growing the set only removes outside
      referencers. */
  lemma OnlyUsedMonotone(g: Graph, s: set<string>, t: set<string>, k: string)
    requires s <= t
    requires OnlyUsedByDeleted(g, s, k)
    ensures OnlyUsedByDeleted(g, t, k)
  {
  }

  /** `Closure` is the least stable superset of its seed. */
  lemma {:induction false} ClosureLeast(g: Graph, s: set<string>, t: set<string>)
    requires s <= t && Stable(g, t)
    ensures Closure(g, s) <= t
    decreases |g.Keys - s|
  {
    var a := Admitted(g, s);
    if a != {} {
      forall k | k in a
        ensures k in t
      {
        if k !in t {
          OnlyUsedMonotone(g, s, t, k);
        }
      }
      AdmittingShrinksOutside(g, s);
      ClosureLeast(g, s + a, t);
    }
  }

  /** A stable set between the seed and the closure is the closure itself:
      however the keys are scanned, the analyzer ends with the same set. */
  lemma StableBelowClosureIsClosure(g: Graph, s: set<string>, t: set<string>)
    requires s <= t <= Closure(g, s)
    requires Stable(g, t)
    ensures t == Closure(g, s)
  {
    ClosureLeast(g, s, t);
  }

  /** A key admitted while the set is still below the closure belongs to the
      closure. */
  lemma AdmissionStaysInClosure(g: Graph, seed: set<string>, s: set<string>, k: string)
    requires s <= Closure(g, seed)
    requires k in g && OnlyUsedByDeleted(g, s, k)
    ensures k in Closure(g, seed)
  {
    OnlyUsedMonotone(g, s, Closure(g, seed), k);
  }

  /** Safety: every referencer of an admitted (non-seed) class is deleted too. */
  lemma {:induction false} ClosureSafety(g: Graph, s: set<string>, u: string, j: string)
    requires u in Closure(g, s) && u !in s
    requires j in g && u in g[j]
    ensures j in Closure(g, s)
    decreases |g.Keys - s|
  {
    var a := Admitted(g, s);
    if a != {} {
      AdmittingShrinksOutside(g, s);
      if u in a {
        assert j in s;
      } else {
        ClosureSafety(g, s + a, u, j);
      }
    }
  }

  /** A key outside the seed that lists itself is never admitted: its own
      entry is always an outside referencer. */
  lemma {:induction false} SelfReferencingKeyNeverAdmitted(g: Graph, s: set<string>, k: string)
    requires k in g && k in g[k] && k !in s
    ensures k !in Closure(g, s)
    decreases |g.Keys - s|
  {
    var a := Admitted(g, s);
    if a != {} {
      assert k !in a;
      AdmittingShrinksOutside(g, s);
      SelfReferencingKeyNeverAdmitted(g, s + a, k);
    }
  }

  /** A key nobody references is always deleted, reachable from the seed or
      not. */
  lemma UnreferencedKeyAdmitted(g: Graph, s: set<string>, k: string)
    requires k in g
    requires forall j :: j in g ==> k !in g[j]
    ensures k in Closure(g, s)
  {
    assert OnlyUsedByDeleted(g, Closure(g, s), k);
  }

  /** Running the analysis again on its own result changes nothing. */
  lemma ClosureIdempotent(g: Graph, s: set<string>)
    ensures Closure(g, Closure(g, s)) == Closure(g, s)
  {
    var r := Closure(g, s);
    assert Admitted(g, r) == {};
  }
}
