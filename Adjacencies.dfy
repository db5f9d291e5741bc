/** The adjacency of a list of vertices, by position: the graph's edges as a matrix of booleans. */
module Adjacencies {

  /** A[i][j]: the vertices at positions i and j share an edge. */
  type Adjacency = seq<seq<bool>>

  /** A square, symmetric adjacency without self-loops. */
  ghost predicate WellFormed(A: Adjacency) {
    (forall i :: 0 <= i < |A| ==> |A[i]| == |A|) &&
    (forall i :: 0 <= i < |A| ==> !A[i][i]) &&
    (forall i, j :: 0 <= i < |A| && 0 <= j < |A| ==> A[i][j] == A[j][i])
  }
}
