/**
 * The undirected, unweighted graph: a map from each vertex to its node, the
 * vertices in insertion order, and a counter of added vertices. Mutators report
 * success or failure instead of throwing.
 */
module UndirectedGraph {
  import opened Outcomes
  import opened Lists
  import opened GraphNode
  import opened Adjacencies

  class Graph {
    var adjList: map<string, nat>   // vertex -> handle of its node
    var vertices: seq<string>
    var size: int
    const nodes: NodeArena

    /**
     * The keys of adjList are exactly the listed vertices, listed once each, and
     * each key maps to a node carrying that vertex. size counts every node ever
     * created, because removeVertex does not decrement it.
     */
    ghost predicate Valid()
      reads this, nodes
    {
      nodes.Valid() &&
      size == |nodes.data| &&
      NoDup(vertices) &&
      (forall v :: v in adjList <==> v in vertices) &&
      (forall v :: v in adjList ==> adjList[v] < |nodes.data| && nodes.data[adjList[v]] == v)
    }

    /** u and v are distinct vertices of the graph whose nodes are linked. */
    ghost predicate Edge(u: string, v: string)
      reads this, nodes
    {
      u in adjList && v in adjList && u != v &&
      adjList[u] < |nodes.edges| && adjList[v] in nodes.edges[adjList[u]]
    }

    constructor ()
      ensures Valid() && fresh(nodes)
      ensures adjList == map[] && vertices == [] && size == 0
    {
      nodes := new NodeArena();
      adjList, vertices, size := map[], [], 0;
    }

    /** A[i][j] tells whether the vertices at positions i and j of vs are linked. */
    ghost predicate IsAdjacencyOf(A: Adjacency, vs: seq<string>)
      reads this, nodes
    {
      |A| == |vs| && (forall i :: 0 <= i < |vs| ==> |A[i]| == |vs|) &&
      forall i, j :: 0 <= i < |vs| && 0 <= j < |vs| ==> A[i][j] == Edge(vs[i], vs[j])
    }

    /** The edge relation among the vertices vs, by position in vs. */
    ghost function AdjacencyOf(vs: seq<string>): (A: Adjacency)
      reads this, nodes
      ensures IsAdjacencyOf(A, vs)
    {
      seq(|vs|, i requires 0 <= i < |vs| reads this, nodes =>
        seq(|vs|, j requires 0 <= j < |vs| reads this, nodes => Edge(vs[i], vs[j])))
    }

    /** The edges among any vertices form a square, symmetric, loop-free adjacency. */
    lemma AdjacencyWellFormed(A: Adjacency, vs: seq<string>)
      requires Valid() && IsAdjacencyOf(A, vs)
      ensures WellFormed(A)
    {
      forall i, j | 0 <= i < |vs| && 0 <= j < |vs|
        ensures A[i][j] == A[j][i]
      {
        EdgeSymmetric(vs[i], vs[j]);
      }
      assert forall i :: 0 <= i < |vs| ==> !Edge(vs[i], vs[i]);
    }

    /** The edge relation is symmetric. */
    lemma EdgeSymmetric(u: string, v: string)
      requires Valid()
      ensures Edge(u, v) <==> Edge(v, u)
    {
    }

    /**
     * addVertex: a vertex not yet a key gets a fresh node (the next handle), is
     * appended to the list and counted; the call returns it. Otherwise the call
     * returns null and nothing changes. No edge appears or disappears.
     */
    method AddVertex(v: string) returns (r: Option<string>)
      requires Valid()
      modifies this, nodes
      ensures Valid()
      ensures old(v in adjList) ==>
                r == None && adjList == old(adjList) && vertices == old(vertices) &&
                size == old(size) && nodes.data == old(nodes.data) && nodes.edges == old(nodes.edges)
      ensures old(v !in adjList) ==>
                r == Some(v) && adjList == old(adjList)[v := old(size)] &&
                vertices == old(vertices) + [v] && size == old(size) + 1 &&
                nodes.data == old(nodes.data) + [v] && nodes.edges == old(nodes.edges) + [[]]
      ensures forall a, b :: Edge(a, b) <==> old(Edge(a, b))
    {
      if v !in adjList {
        size := size + 1;
        var h := nodes.NewNode(v);
        adjList := adjList[v := h];
        vertices := vertices + [v];
        return Some(v);
      }
      return None;
    }

    /**
     * removeVertex: drops the key and the list entry and returns the vertex, but
     * leaves size as it was; its node's edges are cut by removeAllEdges, which
     * leaves the last floor(n/2) of them in place.
     */
    method RemoveVertex(v: string) returns (r: Option<string>)
      requires Valid()
      modifies this, nodes
      ensures Valid()
      ensures old(v !in adjList) ==>
                r == None && adjList == old(adjList) && vertices == old(vertices) &&
                size == old(size) && nodes.data == old(nodes.data) && nodes.edges == old(nodes.edges)
      ensures old(v in adjList) ==>
                var h, e := old(adjList[v]), old(nodes.edges[adjList[v]]);
                r == Some(v) && adjList == old(adjList) - {v} &&
                vertices == Remove(old(vertices), v) && size == old(size) &&
                nodes.data == old(nodes.data) && |nodes.edges| == old(|nodes.edges|) &&
                nodes.edges[h] == e[(|e| + 1) / 2..] &&
                forall g :: 0 <= g < |nodes.edges| && g != h ==>
                  nodes.edges[g] == if g in e[..(|e| + 1) / 2]
                                    then Remove(old(nodes.edges[g]), h) else old(nodes.edges[g])
    {
      if v in adjList {
        var g := adjList[v];
        nodes.RemoveAllEdges(g);
        adjList := adjList - {v};
        vertices := Remove(vertices, v);
        return Some(nodes.data[g]);
      }
      return None;
    }

    /**
     * addEdge: succeeds exactly when both vertices are present and distinct,
     * whether or not the edge was already there; afterwards they are linked.
     * Each node's edge list gains the other's node at its end, unless already there.
     */
    method AddEdge(v1: string, v2: string) returns (ok: bool)
      requires Valid()
      modifies nodes
      ensures Valid() && nodes.data == old(nodes.data)
      ensures ok <==> v1 in adjList && v2 in adjList && v1 != v2
      ensures !ok ==> nodes.edges == old(nodes.edges)
      ensures forall a, b :: Edge(a, b) <==>
                old(Edge(a, b)) || (ok && ((a == v1 && b == v2) || (a == v2 && b == v1)))
      ensures ok ==> var h, k := adjList[v1], adjList[v2];
                nodes.edges == if k in old(nodes.edges[h]) then old(nodes.edges)
                               else old(nodes.edges)[h := old(nodes.edges[h]) + [k]][k := old(nodes.edges[k]) + [h]]
    {
      if v1 in adjList && v2 in adjList && v1 != v2 {
        nodes.AddEdge(adjList[v1], adjList[v2]);
        return true;
      }
      return false;
    }

    /**
     * removeEdge: succeeds exactly when both vertices are present and distinct,
     * whether or not they were linked; afterwards they are not.
     * Each node's edge list loses the first entry for the other's node.
     */
    method RemoveEdge(v1: string, v2: string) returns (ok: bool)
      requires Valid()
      modifies nodes
      ensures Valid() && nodes.data == old(nodes.data)
      ensures ok <==> v1 in adjList && v2 in adjList && v1 != v2
      ensures !ok ==> nodes.edges == old(nodes.edges)
      ensures forall a, b :: Edge(a, b) <==>
                old(Edge(a, b)) && !(ok && ((a == v1 && b == v2) || (a == v2 && b == v1)))
      ensures ok ==> var h, k := adjList[v1], adjList[v2];
                nodes.edges == if k !in old(nodes.edges[h]) then old(nodes.edges)
                               else old(nodes.edges)[h := Remove(old(nodes.edges[h]), k)][k := Remove(old(nodes.edges[k]), h)]
    {
      if v1 in adjList && v2 in adjList && v1 != v2 {
        nodes.RemoveEdge(adjList[v1], adjList[v2]);
        return true;
      }
      return false;
    }

    /** isAdjacent: false for a missing vertex or a pair of equal ones, else linkage. */
    method IsAdjacent(v1: string, v2: string) returns (b: bool)
      requires Valid()
      ensures b <==> Edge(v1, v2)
      ensures b <==> Edge(v2, v1)
      ensures b ==> v1 != v2 && v1 in vertices && v2 in vertices
    {
      b := false;
      if v1 in adjList && v2 in adjList && v1 != v2 {
        b := nodes.HasEdge(adjList[v1], adjList[v2]);
      }
    }

    /**
     * getNeighbors: the vertices of the nodes in v's edge list, in list order;
     * every vertex linked to v is among them. For a vertex that is not a key,
     * getNeighbors dereferences a null node.
     */
    method GetNeighbors(v: string) returns (r: Result<seq<string>>)
      requires Valid()
      ensures v !in adjList ==> r == Err(NullPointer)
      ensures v in adjList ==>
                r.Ok? && |r.value| == |nodes.edges[adjList[v]]| &&
                (forall m :: 0 <= m < |r.value| ==> r.value[m] == nodes.data[nodes.edges[adjList[v]][m]]) &&
                forall u :: Edge(v, u) ==> u in r.value
    {
      if v !in adjList {
        return Err(NullPointer);
      }
      var ns := nodes.GetEdges(adjList[v]);
      forall u | Edge(v, u)
        ensures u in ns
      {
        var e := nodes.edges[adjList[v]];
        var m :| 0 <= m < |e| && e[m] == adjList[u];
        assert ns[m] == u;
      }
      return Ok(ns);
    }

    /** getAllVertices: the internal list itself, in insertion order. */
    method GetAllVertices() returns (r: seq<string>)
      requires Valid()
      ensures r == vertices && NoDup(r)
      ensures forall v :: v in r <==> v in adjList
    {
      r := vertices;
    }
  }
}
