/**
 * Facts about node sequences shared by both lists: a ghost sequence of nodes
 * stands for a list only when no node occurs in it twice.
 */
module Chains {
  ghost predicate Distinct<T>(nodes: seq<T>)
  {
    forall i, j :: 0 <= i < j < |nodes| ==> nodes[i] != nodes[j]
  }

  ghost predicate Disjoint<T>(a: seq<T>, b: seq<T>)
  {
    forall n :: n in a ==> n !in b
  }

  /** Two disjoint lists without repeats concatenate to one without repeats. */
  lemma DistinctConcat<T>(a: seq<T>, b: seq<T>)
    requires Distinct(a) && Distinct(b) && Disjoint(a, b)
    ensures Distinct(a + b)
  {
    forall i, j | 0 <= i < j < |a + b|
      ensures (a + b)[i] != (a + b)[j]
    {
      if i < |a| && j >= |a| {
        assert (a + b)[i] in a && (a + b)[j] in b;
      }
    }
  }
}
