/** Walks in a finite directed graph. A graph without cycles has no walk longer than its
    number of nodes, which is what bounds the recursions over schema documents. */
module Graphs {

  ghost predicate Walk<T(!new)>(edge: (T, T) -> bool, nodes: set<T>, w: seq<T>) {
    && (forall i | 0 <= i < |w| :: w[i] in nodes)
    && (forall i, j | 0 <= i && j == i + 1 < |w| :: edge(w[i], w[j]))
  }

  ghost predicate Acyclic<T(!new)>(edge: (T, T) -> bool, nodes: set<T>) {
    forall w: seq<T> | Walk(edge, nodes, w) && |w| >= 2 :: w[0] != w[|w| - 1]
  }

  lemma WalkExtends<T(!new)>(edge: (T, T) -> bool, nodes: set<T>, w: seq<T>, next: T)
    requires w != [] && Walk(edge, nodes, w) && edge(w[|w| - 1], next) && next in nodes
    ensures Walk(edge, nodes, w + [next])
  {
  }

  lemma {:induction false} DistinctFit<T>(w: seq<T>, nodes: set<T>)
    requires forall i | 0 <= i < |w| :: w[i] in nodes
    requires forall i, j | 0 <= i < j < |w| :: w[i] != w[j]
    ensures |w| <= |nodes|
  {
    if w != [] {
      var last := w[|w| - 1];
      DistinctFit(w[..|w| - 1], nodes - {last});
    }
  }

  lemma AcyclicWalkFits<T(!new)>(edge: (T, T) -> bool, nodes: set<T>, w: seq<T>)
    requires Acyclic(edge, nodes) && Walk(edge, nodes, w)
    ensures |w| <= |nodes|
  {
    forall i, j | 0 <= i < j < |w| ensures w[i] != w[j] {
      var cycle := w[i..j + 1];
      assert Walk(edge, nodes, cycle);
      assert cycle[0] == w[i] && cycle[|cycle| - 1] == w[j];
    }
    DistinctFit(w, nodes);
  }
}
