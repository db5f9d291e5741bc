/**
 * The per-vertex nodes of the graph. Every GraphNode ever created is named by a
 * handle, the order of its creation; a node's edge list holds the handles of the
 * nodes it links to, so node identity (not vertex value) decides membership.
 */
module GraphNode {
  import opened Lists

  /** All GraphNode objects: data[h] is node h's vertex, edges[h] its edge list. */
  class NodeArena {
    var data: seq<string>
    var edges: seq<seq<nat>>

    /** Every edge names an existing node, once; no self-loops; links are mutual. */
    ghost predicate Valid()
      reads this
    {
      |edges| == |data| &&
      (forall h, m :: 0 <= h < |edges| && 0 <= m < |edges[h]| ==> edges[h][m] < |edges|) &&
      (forall h :: 0 <= h < |edges| ==> NoDup(edges[h]) && h !in edges[h]) &&
      (forall h, g :: 0 <= h < |edges| && 0 <= g < |edges| ==> (g in edges[h] <==> h in edges[g]))
    }

    constructor ()
      ensures Valid() && data == [] && edges == []
    {
      data, edges := [], [];
    }

    /** new GraphNode(data): a node with an empty edge list. */
    method NewNode(d: string) returns (h: nat)
      requires Valid()
      modifies this
      ensures Valid()
      ensures h == old(|data|) && data == old(data) + [d] && edges == old(edges) + [[]]
    {
      h := |data|;
      data, edges := data + [d], edges + [[]];
    }

    /**
     * addEdge: links h and g both ways unless g is already in h's list, so the
     * lists stay free of duplicates and a repeated call changes nothing.
     */
    method AddEdge(h: nat, g: nat)
      requires Valid() && h < |data| && g < |data| && h != g
      modifies this
      ensures Valid() && data == old(data)
      ensures g in old(edges[h]) ==> edges == old(edges)
      ensures g !in old(edges[h]) ==>
                edges == old(edges)[h := old(edges[h]) + [g]][g := old(edges[g]) + [h]]
    {
      if g !in edges[h] {
        edges := edges[h := edges[h] + [g]];
        edges := edges[g := edges[g] + [h]];
      }
    }

    /**
     * removeEdge: if h links to g, drops g from h's list and h from g's list;
     * otherwise (also when g == h) nothing changes.
     */
    method RemoveEdge(h: nat, g: nat)
      requires Valid() && h < |data| && g < |data|
      modifies this
      ensures Valid() && data == old(data)
      ensures g !in old(edges[h]) ==> edges == old(edges)
      ensures g in old(edges[h]) ==>
                edges == old(edges)[h := Remove(old(edges[h]), g)][g := Remove(old(edges[g]), h)]
    {
      var linked := HasEdge(h, g);
      if linked {
        var eh, eg := Remove(edges[h], g), Remove(edges[g], h);
        assert forall m :: 0 <= m < |eh| ==> eh[m] in edges[h];
        assert forall m :: 0 <= m < |eg| ==> eg[m] in edges[g];
        edges := edges[h := eh][g := eg];
      }
    }

    /**
     * removeAllEdges as written: the loop index rises while the list shrinks, so
     * of n edges only the first ceil(n/2) are removed and the last floor(n/2) stay.
     */
    method RemoveAllEdges(h: nat)
      requires Valid() && h < |data|
      modifies this
      ensures Valid() && data == old(data) && |edges| == old(|edges|)
      ensures edges[h] == old(edges[h])[(|old(edges[h])| + 1) / 2..]
      ensures |edges[h]| == |old(edges[h])| / 2
      ensures forall g :: 0 <= g < |edges| && g != h ==>
                edges[g] == if g in old(edges[h])[..(|old(edges[h])| + 1) / 2]
                            then Remove(old(edges[g]), h) else old(edges[g])
    {
      ghost var e0, all := edges[h], edges;
      var i := 0;
      while i < |edges[h]|
        invariant 2 * i <= |e0| + 1 && RemovedFirst(h, data, e0, all, i) && data == old(data)
      {
        RemoveNext(h, data, e0, all, i);
        i := i + 1;
      }
    }

    /** The state of removeAllEdges on h after i rounds, from edge lists all and h's list e0. */
    ghost predicate RemovedFirst(h: nat, d: seq<string>, e0: seq<nat>, all: seq<seq<nat>>, i: nat)
      reads this
    {
      Valid() && data == d && h < |edges| == |all| && NoDup(e0) && i <= |e0| && edges[h] == e0[i..] &&
      forall g :: 0 <= g < |all| && g != h ==> edges[g] == if g in e0[..i] then Remove(all[g], h) else all[g]
    }

    /** One round of removeAllEdges: the edge to the head of h's list goes. */
    method RemoveNext(h: nat, ghost d: seq<string>, ghost e0: seq<nat>, ghost all: seq<seq<nat>>, ghost i: nat)
      requires RemovedFirst(h, d, e0, all, i) && i < |e0|
      modifies this
      ensures RemovedFirst(h, d, e0, all, i + 1)
    {
      var g := edges[h][0];
      assert g !in e0[..i] by {
        assert g == e0[i..][0] == e0[i];
      }
      ghost var prev := edges;
      RemoveEdge(h, g);
      assert e0[i..][1..] == e0[i + 1..];
      forall x | 0 <= x < |all| && x != h
        ensures edges[x] == if x in e0[..i + 1] then Remove(all[x], h) else all[x]
      {
        assert e0[..i + 1] == e0[..i] + [g];
        assert edges[x] == if x == g then Remove(prev[x], h) else prev[x];
      }
    }

    /** hasEdge: membership of g in h's edge list. */
    method HasEdge(h: nat, g: nat) returns (b: bool)
      requires Valid() && h < |data|
      ensures b <==> g in edges[h]
      ensures b <==> g < |data| && h in edges[g]
    {
      b := g in edges[h];
    }

    /** getEdges: the neighbours' vertices, in edge-list order. */
    method GetEdges(h: nat) returns (r: seq<string>)
      requires Valid() && h < |data|
      ensures |r| == |edges[h]|
      ensures forall m :: 0 <= m < |r| ==> r[m] == data[edges[h][m]]
    {
      r := [];
      for m := 0 to |edges[h]|
        invariant |r| == m
        invariant forall n :: 0 <= n < m ==> r[n] == data[edges[h][n]]
      {
        r := r + [data[edges[h][m]]];
      }
    }
  }
}
