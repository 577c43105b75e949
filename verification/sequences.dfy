/**
  Facts about the analyzer's queue, kept as a sequence of class names: the
  classes it holds, and the absence of repetitions.
*/
module Sequences {

  /** The elements of a sequence are pairwise different. */
  predicate Distinct(q: seq<string>)
  {
    forall i, j :: 0 <= i < j < |q| ==> q[i] != q[j]
  }

  /** The elements of a sequence. Its `ensures` only unfolds the
      comprehension for the verifier. */
  function Elems(q: seq<string>): (e: set<string>)
    ensures forall x :: x in e <==> x in q
  {
    set x | x in q
  }

  /** A sequence without repetitions has as many elements as its set. */
  lemma {:induction false} DistinctCard(q: seq<string>)
    requires Distinct(q)
    ensures |Elems(q)| == |q|
  {
    if q != [] {
      var rest := q[1..];
      assert Distinct(rest);
      DistinctCard(rest);
      assert Elems(q) == {q[0]} + Elems(rest);
      assert q[0] !in Elems(rest);
    }
  }

  /** Moving the head of `queue` to the end of `polled` keeps their
      concatenation, and that head was not polled before. */
  lemma PollHead(polled: seq<string>, queue: seq<string>)
    requires queue != [] && Distinct(polled + queue)
    ensures queue[0] !in Elems(polled)
    ensures (polled + [queue[0]]) + queue[1..] == polled + queue
  {
    var pq := polled + queue;
    assert pq[|polled|] == queue[0];
    forall i | 0 <= i < |polled|
      ensures polled[i] != queue[0]
    {
      assert pq[i] == polled[i];
    }
  }

  lemma ElemsAppend(a: seq<string>, b: seq<string>)
    ensures Elems(a + b) == Elems(a) + Elems(b)
  {
  }

  lemma AppendAssoc(a: seq<string>, b: seq<string>, c: seq<string>)
    ensures a + (b + c) == (a + b) + c
  {
  }

  lemma SubsetCard(a: set<string>, b: set<string>)
    requires a <= b
    ensures |a| <= |b|
  {
    assert b == a + (b - a);
  }

  /** Appending a sequence without repetitions, disjoint from `q`, keeps `q`
      free of repetitions. */
  lemma DistinctAppend(q: seq<string>, r: seq<string>)
    requires Distinct(q) && Distinct(r) && Elems(q) !! Elems(r)
    ensures Distinct(q + r) && Elems(q + r) == Elems(q) + Elems(r)
  {
    var qr := q + r;
    forall i, j | 0 <= i < j < |qr|
      ensures qr[i] != qr[j]
    {
      if j >= |q| && i < |q| {
        assert qr[i] in Elems(q) && qr[j] == r[j - |q|] && r[j - |q|] in Elems(r);
      }
    }
    assert Elems(qr) == Elems(q) + Elems(r);
  }
}
